/** What the YAML lists of QoS entries mean: a group-by for queue profiles, last entry wins for
    schedule profiles.
 */
module QosYaml {
  import opened Wrappers

  /** The contents of a queue profile entry, and of a schedule profile entry. */
  datatype Queue = Queue(localPriorities: seq<int>, description: Option<string>)
  datatype Schedule = Schedule(algorithm: string, weight: Option<int>)

  const STRICT := "strict"

  datatype YamlQueue = YamlQueue(queue: int, localPriority: int, description: Option<string>)
  datatype YamlSchedule = YamlSchedule(queue: int, algorithm: string, weight: int)

  // ----- one entry

  const NO_QUEUE := Queue([], None)

  function WithPriority(ps: seq<int>, p: int): seq<int> {
    if p in ps then ps else ps + [p]
  }

  function QueueAt(m: map<int, Queue>, queue: int): Queue {
    if queue in m then m[queue] else NO_QUEUE
  }

  function Updated(q: Queue, localPriority: int, description: Option<string>): Queue {
    Queue(WithPriority(q.localPriorities, localPriority), if description.Some? then description else q.description)
  }

  function AddQueue(m: map<int, Queue>, y: YamlQueue): map<int, Queue> {
    m[y.queue := Updated(QueueAt(m, y.queue), y.localPriority, y.description)]
  }

  const NO_SCHEDULE := Schedule("", None)

  function ScheduleOf(algorithm: string, weight: int): Schedule {
    Schedule(algorithm, if algorithm == STRICT then None else Some(weight))
  }

  function AddSchedule(m: map<int, Schedule>, y: YamlSchedule): map<int, Schedule> {
    m[y.queue := ScheduleOf(y.algorithm, y.weight)]
  }

  // ----- lists of entries; an entry is missing only if the YAML files could not be read

  function BuildQueues(start: map<int, Queue>, ys: seq<Option<YamlQueue>>): map<int, Queue> {
    if ys == [] then start
    else
      var m, y := BuildQueues(start, ys[..|ys| - 1]), ys[|ys| - 1];
      if y.Some? then AddQueue(m, y.value) else m
  }

  function BuildSchedules(start: map<int, Schedule>, ys: seq<Option<YamlSchedule>>): map<int, Schedule> {
    if ys == [] then start
    else
      var m, y := BuildSchedules(start, ys[..|ys| - 1]), ys[|ys| - 1];
      if y.Some? then AddSchedule(m, y.value) else m
  }

  lemma BuildQueuesStep(start: map<int, Queue>, ys: seq<Option<YamlQueue>>, i: nat)
    requires i < |ys|
    ensures var m := BuildQueues(start, ys[..i]);
            BuildQueues(start, ys[..i + 1]) == if ys[i].Some? then AddQueue(m, ys[i].value) else m
  {
    assert ys[..i + 1][..i] == ys[..i];
  }

  lemma BuildSchedulesStep(start: map<int, Schedule>, ys: seq<Option<YamlSchedule>>, i: nat)
    requires i < |ys|
    ensures var m := BuildSchedules(start, ys[..i]);
            BuildSchedules(start, ys[..i + 1]) == if ys[i].Some? then AddSchedule(m, ys[i].value) else m
  {
    assert ys[..i + 1][..i] == ys[..i];
  }

  // ----- what the lists mean

  /** The entries of a list for a queue. */
  ghost predicate Lists(ys: seq<Option<YamlQueue>>, queue: int, localPriority: int) {
    exists i :: 0 <= i < |ys| && ys[i].Some? && ys[i].value.queue == queue && ys[i].value.localPriority == localPriority
  }

  ghost predicate Mentions(ys: seq<Option<YamlQueue>>, queue: int) {
    exists i :: 0 <= i < |ys| && ys[i].Some? && ys[i].value.queue == queue
  }

  /** The last description given for a queue. */
  function LastDescription(ys: seq<Option<YamlQueue>>, queue: int): Option<string> {
    if ys == [] then None
    else
      var y := ys[|ys| - 1];
      if y.Some? && y.value.queue == queue && y.value.description.Some? then y.value.description
      else LastDescription(ys[..|ys| - 1], queue)
  }

  ghost predicate NoDuplicates(s: seq<int>) {
    forall i, j :: 0 <= i < j < |s| ==> s[i] != s[j]
  }

  /** The queue profile is a group-by of the list: a row for every queue mentioned and no other,
      holding exactly the local priorities listed for it, each once, and the last description. */
  lemma {:induction false} QueuesGroupBy(ys: seq<Option<YamlQueue>>, queue: int)
    ensures var m := BuildQueues(map[], ys);
            && (queue in m <==> Mentions(ys, queue))
            && (queue in m ==>
                  && NoDuplicates(m[queue].localPriorities)
                  && (forall p :: p in m[queue].localPriorities <==> Lists(ys, queue, p))
                  && m[queue].description == LastDescription(ys, queue))
    decreases |ys|
  {
    if ys != [] {
      var init, y := ys[..|ys| - 1], ys[|ys| - 1];
      QueuesGroupBy(init, queue);
      LastDescriptionUnmentioned(init, queue);
      assert forall p :: Lists(init, queue, p) ==> Mentions(init, queue);
      assert forall p :: Lists(ys, queue, p) <==>
        Lists(init, queue, p) || (y.Some? && y.value.queue == queue && y.value.localPriority == p) by {
        forall p
          ensures Lists(ys, queue, p) <==>
            Lists(init, queue, p) || (y.Some? && y.value.queue == queue && y.value.localPriority == p)
        {
          ListsSnoc(ys, queue, p);
        }
      }
      MentionsSnoc(ys, queue);
    }
  }

  lemma ListsSnoc(ys: seq<Option<YamlQueue>>, queue: int, p: int)
    requires ys != []
    ensures var y := ys[|ys| - 1];
            Lists(ys, queue, p) <==>
            Lists(ys[..|ys| - 1], queue, p) || (y.Some? && y.value.queue == queue && y.value.localPriority == p)
  {
    var init := ys[..|ys| - 1];
    if Lists(init, queue, p) {
      var i :| 0 <= i < |init| && init[i].Some? && init[i].value.queue == queue && init[i].value.localPriority == p;
      assert ys[i] == init[i];
    }
    if Lists(ys, queue, p) {
      var i :| 0 <= i < |ys| && ys[i].Some? && ys[i].value.queue == queue && ys[i].value.localPriority == p;
      assert i < |init| ==> ys[i] == init[i];
    }
  }

  lemma MentionsSnoc(ys: seq<Option<YamlQueue>>, queue: int)
    requires ys != []
    ensures var y := ys[|ys| - 1];
            Mentions(ys, queue) <==> Mentions(ys[..|ys| - 1], queue) || (y.Some? && y.value.queue == queue)
  {
    var init := ys[..|ys| - 1];
    if Mentions(init, queue) {
      var i :| 0 <= i < |init| && init[i].Some? && init[i].value.queue == queue;
      assert ys[i] == init[i];
    }
    if Mentions(ys, queue) {
      var i :| 0 <= i < |ys| && ys[i].Some? && ys[i].value.queue == queue;
      assert i < |init| ==> ys[i] == init[i];
    }
  }

  lemma {:induction false} LastDescriptionUnmentioned(ys: seq<Option<YamlQueue>>, queue: int)
    ensures !Mentions(ys, queue) ==> LastDescription(ys, queue) == None
    decreases |ys|
  {
    if ys != [] {
      MentionsSnoc(ys, queue);
      LastDescriptionUnmentioned(ys[..|ys| - 1], queue);
    }
  }

  /** A profile that already holds a list: its queues and priorities are there, and descriptions given
      so far are on top of the final ones. */
  lemma {:induction false} RebuildUpTo(ys: seq<Option<YamlQueue>>, n: nat, queue: int)
    requires n <= |ys|
    ensures var m := BuildQueues(map[], ys);
            var r := BuildQueues(m, ys[..n]);
            && (queue in r <==> queue in m)
            && (queue in m ==>
                  && r[queue].localPriorities == m[queue].localPriorities
                  && r[queue].description ==
                     if LastDescription(ys[..n], queue).Some? then LastDescription(ys[..n], queue)
                     else m[queue].description)
    decreases n
  {
    if n > 0 {
      var m, y := BuildQueues(map[], ys), ys[n - 1];
      assert ys[..n][..n - 1] == ys[..n - 1];
      RebuildUpTo(ys, n - 1, queue);
      if y.Some? && y.value.queue == queue {
        QueuesGroupBy(ys, queue);
        assert Mentions(ys, queue) && Lists(ys, queue, y.value.localPriority);
      }
    }
  }

  /** Building a profile that is already built changes nothing. */
  lemma RebuildQueues(ys: seq<Option<YamlQueue>>)
    ensures BuildQueues(BuildQueues(map[], ys), ys) == BuildQueues(map[], ys)
  {
    var m := BuildQueues(map[], ys);
    var r := BuildQueues(m, ys);
    assert ys[..|ys|] == ys;
    forall queue
      ensures queue in r <==> queue in m
      ensures queue in m ==> r[queue] == m[queue]
    {
      RebuildUpTo(ys, |ys|, queue);
      QueuesGroupBy(ys, queue);
    }
  }

  /** The last entry of a list for a queue. */
  function LastSchedule(ys: seq<Option<YamlSchedule>>, queue: int): Option<YamlSchedule> {
    if ys == [] then None
    else if ys[|ys| - 1].Some? && ys[|ys| - 1].value.queue == queue then ys[|ys| - 1]
    else LastSchedule(ys[..|ys| - 1], queue)
  }

  /** The schedule profile holds the last entry for each queue; a weight is absent exactly from strict
      queues. */
  lemma {:induction false} SchedulesTakeLast(ys: seq<Option<YamlSchedule>>, queue: int)
    ensures var m, y := BuildSchedules(map[], ys), LastSchedule(ys, queue);
            && (queue in m <==> y.Some?)
            && (y.Some? ==>
                  && m[queue].algorithm == y.value.algorithm
                  && (m[queue].weight == None <==> y.value.algorithm == "strict")
                  && (m[queue].weight.Some? ==> m[queue].weight.value == y.value.weight))
    decreases |ys|
  {
    if ys != [] {
      SchedulesTakeLast(ys[..|ys| - 1], queue);
    }
  }
}
