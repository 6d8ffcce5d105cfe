/** QoS profiles: rows of a profile table, each holding an association of queue numbers to entry rows.
    Queue profiles (Q_Profile) and schedule profiles (QoS) are built the same way; they differ in what
    an entry row holds, which is a type parameter here.
 */
module Qos {
  import opened Wrappers
  import opened QosYaml

  /** An entry row: a Q_Profile_Entry or a Queue. */
  class Entry<V> {
    var val: V
    var hwDefault: Option<bool>

    constructor (v: V)
      ensures val == v && hwDefault == None
    {
      val, hwDefault := v, None;
    }
  }

  /** A profile row; keys[i] is mapped to the row values[i]. */
  class Profile<V> {
    var name: string
    var keys: seq<int>
    var values: seq<Entry<V>>
    var hwDefault: Option<bool>

    constructor (profileName: string)
      ensures name == profileName && keys == [] && values == [] && hwDefault == None
    {
      name, keys, values, hwDefault := profileName, [], [], None;
    }

    ghost predicate Valid()
      reads this`keys, this`values
    {
      && |keys| == |values|
      && (forall i, j :: 0 <= i < j < |keys| ==> keys[i] != keys[j])
      && (forall i, j :: 0 <= i < j < |values| ==> values[i] != values[j])
    }

    /** What the profile holds for each queue. */
    ghost function Contents(): map<int, V>
      requires Valid()
      reads this`keys, this`values, values`val
    {
      ContentsUpTo(|keys|)
    }

    ghost function ContentsUpTo(n: nat): map<int, V>
      requires |keys| == |values| && n <= |keys|
      reads this`keys, this`values, values`val
    {
      if n == 0 then map[] else ContentsUpTo(n - 1)[keys[n - 1] := values[n - 1].val]
    }

    /** Whether the entry rows are marked as hardware defaults. */
    ghost predicate EntriesMarked(mark: Option<bool>)
      reads this`values, values`hwDefault
    {
      forall e :: e in values ==> e.hwDefault == mark
    }

    /** qos_get_queue_profile_entry_row, qos_get_schedule_profile_entry_row. */
    method GetEntryRow(queue: int) returns (row: Entry?<V>)
      requires Valid()
      ensures row == null <==> queue !in keys
      ensures row != null ==> exists i :: 0 <= i < |keys| && keys[i] == queue && values[i] == row
    {
      for i := 0 to |keys|
        invariant queue !in keys[..i]
      {
        if keys[i] == queue {
          return values[i];
        }
      }
      return null;
    }

    /** insert_queue_profile_queue_row, insert_schedule_profile_queue_row: copy both lists and append
        a new row. */
    method InsertQueueRow(queue: int, blank: V) returns (row: Entry<V>)
      requires Valid() && queue !in keys
      modifies this`keys, this`values
      ensures Valid() && fresh(row) && row.val == blank && row.hwDefault == None
      ensures keys == old(keys) + [queue] && values == old(values) + [row]
    {
      row := new Entry(blank);
      var keyList: seq<int>, valueList: seq<Entry<V>> := [], [];
      for i := 0 to |keys|
        invariant keyList == keys[..i] && valueList == values[..i]
      {
        keyList := keyList + [keys[i]];
        valueList := valueList + [values[i]];
      }
      keys := keyList + [queue];
      values := valueList + [row];
    }

    /** The row for a queue, found or inserted, and where it is. */
    method FindOrInsert(queue: int, blank: V) returns (row: Entry<V>, ghost at: nat)
      requires Valid()
      modifies this`keys, this`values
      ensures Valid() && at < |keys| && keys[at] == queue && values[at] == row
      ensures if queue in old(keys) then keys == old(keys) && values == old(values)
              else keys == old(keys) + [queue] && values == old(values) + [row] && at == |old(keys)|
                   && fresh(row) && row.val == blank && row.hwDefault == None
    {
      var found := GetEntryRow(queue);
      if found == null {
        row := InsertQueueRow(queue, blank);
        at := |keys| - 1;
      } else {
        row := found;
        at :| 0 <= at < |keys| && keys[at] == queue && values[at] == row;
      }
    }

    /** The same, with what it means for the contents. */
    method EntryRow(queue: int, blank: V) returns (row: Entry<V>, ghost at: nat)
      requires Valid()
      modifies this`keys, this`values
      ensures Valid() && KeepsRows(this)
      ensures at < |keys| && keys[at] == queue && values[at] == row
      ensures fresh(row) || row in old(values)
      ensures SameBut(this, old(Contents()), at)
      ensures row.val == if queue in old(Contents()) then old(Contents())[queue] else blank
    {
      ghost var before, n := Contents(), |keys|;
      ContentsAt(this, n);
      assert keys[..n] == keys;
      row, at := FindOrInsert(queue, blank);
      assert keys[..n] == old(keys) && values[..n] == old(values);
      assert forall i :: 0 <= i < n ==> keys[i] == old(keys)[i] && values[i] == old(values)[i];
      ContentsBut(this, before, n, at);
    }
  }

  /** The rows a profile had before are still its first; new ones are unmarked. */
  twostate predicate KeepsRows<V>(p: Profile<V>)
    reads p`values, p.values`hwDefault
  {
    && |old(p.values)| <= |p.values|
    && (forall i :: 0 <= i < |old(p.values)| ==> p.values[i] == old(p.values)[i])
    && (forall i :: |old(p.values)| <= i < |p.values| ==> fresh(p.values[i]) && p.values[i].hwDefault == None)
  }

  // ----- rows of a queue profile

  /** has_local_priority. */
  method HasLocalPriority(row: Entry<Queue>, localPriority: int) returns (found: bool)
    ensures found <==> localPriority in row.val.localPriorities
  {
    for i := 0 to |row.val.localPriorities|
      invariant localPriority !in row.val.localPriorities[..i]
    {
      if row.val.localPriorities[i] == localPriority {
        return true;
      }
    }
    return false;
  }

  /** add_local_priority. */
  method AddLocalPriority(row: Entry<Queue>, localPriority: int)
    modifies row`val
    ensures row.val == old(row.val).(localPriorities := WithPriority(old(row.val.localPriorities), localPriority))
  {
    var found := HasLocalPriority(row, localPriority);
    if found {
      return;
    }
    var valueList: seq<int> := [];
    for i := 0 to |row.val.localPriorities|
      invariant valueList == row.val.localPriorities[..i]
    {
      valueList := valueList + [row.val.localPriorities[i]];
    }
    row.val := row.val.(localPriorities := valueList + [localPriority]);
  }

  /** The columns of a queue row are updated. */
  method SetQueueRow(row: Entry<Queue>, localPriority: int, description: Option<string>)
    modifies row`val
    ensures row.val == Updated(old(row.val), localPriority, description)
  {
    AddLocalPriority(row, localPriority);
    if description.Some? {
      row.val := row.val.(description := description);
    }
  }

  /** A profile in which at most the row at this place is new or has changed. */
  ghost predicate SameBut<V>(p: Profile<V>, before: map<int, V>, at: nat)
    requires p.Valid() && at < |p.keys|
    reads p`keys, p`values, p.values`val
  {
    && before.Keys + {p.keys[at]} == (set k | k in p.keys)
    && forall i :: 0 <= i < |p.keys| && i != at ==> p.keys[i] in before && p.values[i].val == before[p.keys[i]]
  }

  lemma {:induction false} ContentsAt<V>(p: Profile<V>, n: nat)
    requires p.Valid() && n <= |p.keys|
    ensures p.ContentsUpTo(n).Keys == set k | k in p.keys[..n]
    ensures forall i :: 0 <= i < n ==> p.ContentsUpTo(n)[p.keys[i]] == p.values[i].val
    decreases n
  {
    if n > 0 {
      ContentsAt(p, n - 1);
      assert p.keys[..n] == p.keys[..n - 1] + [p.keys[n - 1]];
    }
  }

  /** The map of the first n rows, of which at most one is missing. */
  lemma ContentsBut<V>(p: Profile<V>, before: map<int, V>, n: nat, at: nat)
    requires p.Valid() && at < |p.keys| && n <= |p.keys| <= n + 1
    requires n < |p.keys| ==> at == n
    requires before.Keys == set k | k in p.keys[..n]
    requires forall i :: 0 <= i < n ==> before[p.keys[i]] == p.values[i].val
    ensures SameBut(p, before, at)
  {
    assert p.keys == p.keys[..n] + p.keys[n..];
    assert n < |p.keys| ==> p.keys[n..] == [p.keys[at]];
    assert forall i :: 0 <= i < n ==> p.keys[i] in p.keys[..n];
  }

  lemma ContentsWith<V>(p: Profile<V>, before: map<int, V>, at: nat)
    requires p.Valid() && at < |p.keys|
    requires SameBut(p, before, at)
    ensures p.Contents() == before[p.keys[at] := p.values[at].val]
  {
    ContentsAt(p, |p.keys|);
    assert p.keys[..|p.keys|] == p.keys;
    var m := before[p.keys[at] := p.values[at].val];
    assert p.Contents().Keys == m.Keys;
    forall k | k in m
      ensures p.Contents()[k] == m[k]
    {
      assert k in p.keys;
      var i :| 0 <= i < |p.keys| && p.keys[i] == k;
    }
  }

  /** qos_queue_profile_row_command, on the profile row. */
  method QueueRowCommand(p: Profile<Queue>, queue: int, localPriority: int, description: Option<string>)
    requires p.Valid()
    modifies p`keys, p`values, p.values`val
    ensures p.Valid() && KeepsRows(p)
    ensures p.Contents() == AddQueue(old(p.Contents()), YamlQueue(queue, localPriority, description))
  {
    ghost var before := p.Contents();
    var row, at := p.EntryRow(queue, NO_QUEUE);
    assert row.val == QueueAt(before, queue);
    SetQueueRow(row, localPriority, description);
    ContentsWith(p, before, at);
  }

  // ----- rows of a schedule profile

  /** The columns of a schedule row are set; a strict queue has no weight. */
  method SetScheduleRow(row: Entry<Schedule>, algorithm: string, weight: int)
    modifies row`val
    ensures row.val == ScheduleOf(algorithm, weight)
  {
    row.val := row.val.(algorithm := algorithm);
    if algorithm == STRICT {
      row.val := row.val.(weight := None);
    } else {
      row.val := row.val.(weight := Some(weight));
    }
  }

  /** qos_schedule_profile_row_command, on the profile row. */
  method ScheduleRowCommand(p: Profile<Schedule>, queue: int, algorithm: string, weight: int)
    requires p.Valid()
    modifies p`keys, p`values, p.values`val
    ensures p.Valid() && KeepsRows(p)
    ensures p.Contents() == AddSchedule(old(p.Contents()), YamlSchedule(queue, algorithm, weight))
  {
    ghost var before := p.Contents();
    var row, at := p.EntryRow(queue, NO_SCHEDULE);
    SetScheduleRow(row, algorithm, weight);
    ContentsWith(p, before, at);
  }

  // ----- the table of profiles

  class Table<V> {
    var profiles: seq<Profile<V>>

    /** Names are unique, and no two profiles share an entry row. */
    ghost predicate Valid()
      reads this, profiles`name, profiles`keys, profiles`values
    {
      && (forall p :: p in profiles ==> p.Valid())
      && UniqueNames()
      && (forall p, q, e :: p in profiles && q in profiles && p != q && e in p.values ==> e !in q.values)
    }

    ghost predicate UniqueNames()
      reads this, profiles`name
    {
      forall i, j :: 0 <= i < j < |profiles| ==> profiles[i].name != profiles[j].name
    }

    ghost function Named(name: string): set<Profile<V>>
      reads this, profiles`name
    {
      set p | p in profiles && p.name == name
    }

    ghost function RowsNamed(name: string): set<Entry<V>>
      reads this, profiles`name, profiles`values
    {
      set p, e | p in profiles && p.name == name && e in p.values :: e
    }

    /** qos_get_queue_profile_row, qos_get_schedule_profile_row. */
    method GetProfileRow(name: string) returns (p: Profile?<V>)
      ensures p == null <==> forall q :: q in profiles ==> q.name != name
      ensures p != null ==> p in profiles && p.name == name
      ensures UniqueNames() ==> forall q :: q in profiles && q.name == name ==> p == q
    {
      for i := 0 to |profiles|
        invariant forall q :: q in profiles[..i] ==> q.name != name
      {
        if profiles[i].name == name {
          return profiles[i];
        }
      }
      return null;
    }

    /** qos_queue_profile_command, qos_schedule_profile_command. */
    method ProfileCommand(name: string) returns (p: Profile<V>)
      requires Valid()
      modifies this
      ensures Valid() && p in profiles && p.name == name
      ensures if exists q :: q in old(profiles) && q.name == name then profiles == old(profiles)
              else profiles == old(profiles) + [p] && fresh(p) && p.values == [] && p.hwDefault == None
    {
      var found := GetProfileRow(name);
      if found == null {
        p := new Profile(name);
        profiles := profiles + [p];
      } else {
        p := found;
      }
    }
  }

  // ----- filling a profile from the YAML list

  /** The loop of qos_queue_profile_create_factory_default; every entry looks its profile up again. */
  method FillQueueProfile(t: Table<Queue>, name: string, p: Profile<Queue>, yaml: seq<Option<YamlQueue>>)
    requires t.UniqueNames() && p in t.profiles && p.name == name && p.Valid()
    modifies p`keys, p`values, p.values`val
    ensures p.Valid() && KeepsRows(p)
    ensures p.Contents() == BuildQueues(old(p.Contents()), yaml)
  {
    ghost var start := p.Contents();
    for i := 0 to |yaml|
      invariant p.Valid() && KeepsRows(p)
      invariant p.Contents() == BuildQueues(start, yaml[..i])
    {
      BuildQueuesStep(start, yaml, i);
      if yaml[i].Some? {
        var row := t.GetProfileRow(name);
        QueueRowCommand(row, yaml[i].value.queue, yaml[i].value.localPriority, yaml[i].value.description);
      }
    }
    assert yaml[..|yaml|] == yaml;
  }

  /** p is the profile of that name, which is appended to the table if there was none. */
  twostate predicate Named<V>(t: Table<V>, name: string, new p: Profile<V>)
    reads t, p`name
  {
    && p in t.profiles && p.name == name
    && (t.profiles == old(t.profiles)
        || (&& t.profiles == old(t.profiles) + [p] && fresh(p)
            && forall q :: q in old(t.profiles) ==> old(q.name) != name))
  }

  twostate lemma KeptOrNew<V>(p: Profile<V>)
    requires KeepsRows(p)
    ensures forall e :: e in p.values ==> fresh(e) || e in old(p.values)
  {
  }

  /** The list is gone through on top of the rows the profile has. */
  method RefillQueueProfile(t: Table<Queue>, name: string, p: Profile<Queue>, yaml: seq<Option<YamlQueue>>)
    requires t.Valid() && p in t.profiles && p.name == name
    modifies p`keys, p`values, p.values`val
    ensures t.Valid() && KeepsRows(p)
    ensures p.Contents() == BuildQueues(old(p.Contents()), yaml)
  {
    FillQueueProfile(t, name, p, yaml);
    assert forall e :: e in p.values ==> fresh(e) || e in old(p.values) by { KeptOrNew(p); }
    assert t.Valid();
  }

  /** qos_queue_profile_create_factory_default. */
  method CreateQueueProfile(t: Table<Queue>, name: string, yaml: seq<Option<YamlQueue>>) returns (p: Profile<Queue>)
    requires t.Valid()
    modifies t, t.Named(name)`keys, t.Named(name)`values, t.RowsNamed(name)`val
    ensures t.Valid() && Named(t, name, p)
    ensures p in old(t.profiles) ==> KeepsRows(p) && p.Contents() == BuildQueues(old(p.Contents()), yaml)
    ensures p !in old(t.profiles) ==>
              && p.hwDefault == None && p.EntriesMarked(None) && fresh(p.values)
              && p.Contents() == BuildQueues(map[], yaml)
  {
    p := t.ProfileCommand(name);
    assert p in old(t.profiles) ==>
        p in old(t.Named(name)) && forall e :: e in p.values ==> e in old(t.RowsNamed(name));
    RefillQueueProfile(t, name, p, yaml);
  }

  /** The loop of qos_schedule_profile_create_factory_default. */
  method FillScheduleProfile(t: Table<Schedule>, name: string, p: Profile<Schedule>, yaml: seq<Option<YamlSchedule>>)
    requires t.UniqueNames() && p in t.profiles && p.name == name && p.Valid()
    modifies p`keys, p`values, p.values`val
    ensures p.Valid() && KeepsRows(p)
    ensures p.Contents() == BuildSchedules(old(p.Contents()), yaml)
  {
    ghost var start := p.Contents();
    for i := 0 to |yaml|
      invariant p.Valid() && KeepsRows(p)
      invariant p.Contents() == BuildSchedules(start, yaml[..i])
    {
      BuildSchedulesStep(start, yaml, i);
      if yaml[i].Some? {
        var row := t.GetProfileRow(name);
        ScheduleRowCommand(row, yaml[i].value.queue, yaml[i].value.algorithm, yaml[i].value.weight);
      }
    }
    assert yaml[..|yaml|] == yaml;
  }

  /** The profile's rows are dropped, then the list is gone through. */
  method RefillScheduleProfile(t: Table<Schedule>, name: string, p: Profile<Schedule>, yaml: seq<Option<YamlSchedule>>)
    requires t.Valid() && p in t.profiles && p.name == name
    modifies p`keys, p`values
    ensures t.Valid()
    ensures p.EntriesMarked(None) && fresh(p.values) && p.Contents() == BuildSchedules(map[], yaml)
  {
    p.keys, p.values := [], [];
    FillScheduleProfile(t, name, p, yaml);
    assert forall e :: e in p.values ==> fresh(e) || e in old(p.values);
    assert t.Valid();
  }

  /** qos_schedule_profile_create_factory_default: all rows are dropped first. */
  method CreateScheduleProfile(t: Table<Schedule>, name: string, yaml: seq<Option<YamlSchedule>>)
    returns (p: Profile<Schedule>)
    requires t.Valid()
    modifies t, t.Named(name)`keys, t.Named(name)`values
    ensures t.Valid() && Named(t, name, p)
    ensures p !in old(t.profiles) ==> p.hwDefault == None
    ensures p.EntriesMarked(None) && fresh(p.values) && p.Contents() == BuildSchedules(map[], yaml)
  {
    p := t.ProfileCommand(name);
    assert p in old(t.profiles) ==> p in old(t.Named(name));
    RefillScheduleProfile(t, name, p, yaml);
  }

  // ----- the default and the factory-default profile

  /** The System row, as far as its profile goes. */
  class System<V> {
    var profile: Profile?<V>
  }

  datatype QosInfo = QosInfo(defaultName: string, factoryDefaultName: string)

  /** The profile row and its entries are marked as hardware defaults. */
  method MarkProfile<V>(p: Profile<V>)
    modifies p`hwDefault, p.values`hwDefault
    ensures p.hwDefault == Some(true) && p.EntriesMarked(Some(true))
  {
    p.hwDefault := Some(true);
    for i := 0 to |p.values|
      invariant p.hwDefault == Some(true)
      invariant forall k :: 0 <= k < i ==> p.values[k].hwDefault == Some(true)
    {
      p.values[i].hwDefault := Some(true);
    }
  }

  /** Marking one profile of a table leaves everything else in it as it was. */
  method MarkFactoryProfile<V>(t: Table<V>, p: Profile<V>, f: Profile<V>)
    requires t.Valid() && p in t.profiles && f in t.profiles
    modifies f`hwDefault, f.values`hwDefault
    ensures t.Valid() && p.Contents() == old(p.Contents()) && f.Contents() == old(f.Contents())
    ensures f.hwDefault == Some(true) && f.EntriesMarked(Some(true))
    ensures p != f ==>
              p.hwDefault == old(p.hwDefault) && (old(p.EntriesMarked(None)) ==> p.EntriesMarked(None))
  {
    MarkProfile(f);
  }

  /** Both profiles, before one of them is marked. */
  method CreateQueueProfiles(t: Table<Queue>, info: QosInfo, yaml: seq<Option<YamlQueue>>)
    returns (p: Profile<Queue>, f: Profile<Queue>)
    requires t.Valid() && t.profiles == []
    modifies t
    ensures t.Valid() && p.Valid() && f.Valid()
    ensures p.name == info.defaultName && f.name == info.factoryDefaultName && fresh(p) && fresh(f)
    ensures p in t.profiles && f in t.profiles
    ensures t.profiles == if info.defaultName == info.factoryDefaultName then [p] else [p, f]
    ensures p.Contents() == f.Contents() == BuildQueues(map[], yaml)
    ensures p.hwDefault == f.hwDefault == None && p.EntriesMarked(None) && f.EntriesMarked(None)
    ensures fresh(p.values) && fresh(f.values)
    ensures info.defaultName != info.factoryDefaultName ==> forall e :: e in p.values ==> e !in f.values
  {
    p := CreateQueueProfile(t, info.defaultName, yaml);
    f := CreateQueueProfile(t, info.factoryDefaultName, yaml);
    RebuildQueues(yaml);
  }

  /** qos_init_queue_profile: the default profile, which the System row points to, and the
      factory-default profile, which is marked; they hold the same and share no row. */
  method InitQueueProfile(t: Table<Queue>, sys: System<Queue>, info: QosInfo, yaml: seq<Option<YamlQueue>>)
    returns (p: Profile<Queue>, f: Profile<Queue>)
    requires t.Valid() && t.profiles == []
    modifies t, sys
    ensures t.Valid() && p.Valid() && f.Valid() && sys.profile == p
    ensures p.name == info.defaultName && f.name == info.factoryDefaultName
    ensures t.profiles == if info.defaultName == info.factoryDefaultName then [p] else [p, f]
    ensures p.Contents() == f.Contents() == BuildQueues(map[], yaml)
    ensures f.hwDefault == Some(true) && f.EntriesMarked(Some(true))
    ensures info.defaultName != info.factoryDefaultName ==>
              p.hwDefault == None && p.EntriesMarked(None) && forall e :: e in p.values ==> e !in f.values
  {
    p, f := CreateQueueProfiles(t, info, yaml);
    sys.profile := p;
    MarkFactoryProfile(t, p, f);
  }

  /** Both profiles, before one of them is marked. */
  method CreateScheduleProfiles(t: Table<Schedule>, info: QosInfo, yaml: seq<Option<YamlSchedule>>)
    returns (p: Profile<Schedule>, f: Profile<Schedule>)
    requires t.Valid() && t.profiles == []
    modifies t
    ensures t.Valid() && p.Valid() && f.Valid()
    ensures p.name == info.defaultName && f.name == info.factoryDefaultName && fresh(p) && fresh(f)
    ensures p in t.profiles && f in t.profiles
    ensures t.profiles == if info.defaultName == info.factoryDefaultName then [p] else [p, f]
    ensures p.Contents() == f.Contents() == BuildSchedules(map[], yaml)
    ensures p.hwDefault == f.hwDefault == None && p.EntriesMarked(None) && f.EntriesMarked(None)
    ensures fresh(p.values) && fresh(f.values)
    ensures info.defaultName != info.factoryDefaultName ==> forall e :: e in p.values ==> e !in f.values
  {
    p := CreateScheduleProfile(t, info.defaultName, yaml);
    f := CreateScheduleProfile(t, info.factoryDefaultName, yaml);
  }

  /** qos_init_schedule_profile: the default profile, which the System row points to, and the
      factory-default profile, which is marked; they hold the same and share no row. */
  method InitScheduleProfile(t: Table<Schedule>, sys: System<Schedule>, info: QosInfo, yaml: seq<Option<YamlSchedule>>)
    returns (p: Profile<Schedule>, f: Profile<Schedule>)
    requires t.Valid() && t.profiles == []
    modifies t, sys
    ensures t.Valid() && p.Valid() && f.Valid() && sys.profile == p
    ensures p.name == info.defaultName && f.name == info.factoryDefaultName
    ensures t.profiles == if info.defaultName == info.factoryDefaultName then [p] else [p, f]
    ensures p.Contents() == f.Contents() == BuildSchedules(map[], yaml)
    ensures f.hwDefault == Some(true) && f.EntriesMarked(Some(true))
    ensures info.defaultName != info.factoryDefaultName ==>
              p.hwDefault == None && p.EntriesMarked(None) && forall e :: e in p.values ==> e !in f.values
  {
    p, f := CreateScheduleProfiles(t, info, yaml);
    sys.profile := p;
    MarkFactoryProfile(t, p, f);
  }
}
