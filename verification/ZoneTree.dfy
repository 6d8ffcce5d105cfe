/** The timezone names found below the zoneinfo directory: the walk of the CLI, which fills two tables,
    and the walk of the REST validator, which fills a dictionary on first use.
 */
module ZoneTree {
  import opened Wrappers
  import opened CStrings

  const POSIX_DIR := "/usr/share/zoneinfo/posix"
  const BASE_PATH := "/usr/share/zoneinfo/posix/"
  const MAX_TIMEZONES := 900
  const MAX_TIMEZONE_NAME_SIZE := 100

  /** A directory entry, as d_type tells it.  Dots are the entries "." and "..". */
  datatype Entry =
    | File(name: string)
    | Link(name: string, toDirectory: bool)
    | Directory(name: string, entries: seq<Entry>)
    | Dots(name: string)

  // ----- the paths a walk visits

  /** The full paths of everything below a directory that is not a directory itself, in the order the
      directories are read; links to directories only on demand. */
  function Leaves(dir: string, es: seq<Entry>, dirLinks: bool): seq<string>
    decreases es
  {
    if es == [] then [] else LeavesOfEntry(dir, es[0], dirLinks) + Leaves(dir, es[1..], dirLinks)
  }

  function LeavesOfEntry(dir: string, e: Entry, dirLinks: bool): seq<string>
    decreases e
  {
    match e
    case File(name) => [dir + "/" + name]
    case Link(name, toDirectory) => if toDirectory && !dirLinks then [] else [dir + "/" + name]
    case Directory(name, entries) => Leaves(dir + "/" + name, entries, dirLinks)
    case Dots(_) => []
  }

  /** The zone name of a path. */
  function ZoneName(path: string): string {
    RemoveAll(path, BASE_PATH)
  }

  function ZoneNames(paths: seq<string>): (names: seq<string>)
    ensures |names| == |paths|
    ensures forall i :: 0 <= i < |paths| ==> names[i] == ZoneName(paths[i])
  {
    seq(|paths|, i requires 0 <= i < |paths| => ZoneName(paths[i]))
  }

  function LowerAll(names: seq<string>): (r: seq<string>)
    ensures |r| == |names|
    ensures forall i :: 0 <= i < |names| ==> r[i] == Lower(names[i])
  {
    seq(|names|, i requires 0 <= i < |names| => Lower(names[i]))
  }

  // ----- the CLI

  /** The buffers are large enough: 100 characters for the path of a leaf, of which snprintf is told
      99, and 1024 for a directory. */
  predicate FitsBuffers(dir: string, es: seq<Entry>)
    decreases es
  {
    forall i :: 0 <= i < |es| ==> EntryFits(dir, es[i])
  }

  predicate EntryFits(dir: string, e: Entry)
    decreases e
  {
    && '\0' !in e.name
    && (e.File? || e.Link? ==> |dir + "/" + e.name| < MAX_TIMEZONE_NAME_SIZE - 1)
    && (e.Directory? ==> |dir + "/" + e.name| < 1023 && FitsBuffers(dir + "/" + e.name, e.entries))
  }

  class ZoneDb {
    var zones: seq<string>
    var zonesCaps: seq<string>
    var zoneCount: nat

    ghost predicate Valid()
      reads this
    {
      |zones| == |zonesCaps| == zoneCount && zones == LowerAll(zonesCaps)
    }

    constructor ()
      ensures Valid() && zoneCount == 0
    {
      zones, zonesCaps, zoneCount := [], [], 0;
    }

    /** populate_zone_db. */
    method PopulateZoneDb(zone: string, zoneCaps: string)
      requires Valid() && zone == Lower(zoneCaps) && zoneCount < MAX_TIMEZONES
      modifies this
      ensures Valid() && zonesCaps == old(zonesCaps) + [zoneCaps]
    {
      zones := zones + [zone];
      zonesCaps := zonesCaps + [zoneCaps];
      zoneCount := zoneCount + 1;
    }

    /** add_info_to_cmd_options: the buffer's text is stored as it is and in lower case. */
    method AddInfoToCmdOptions(timezone: array<char>, ghost n: nat)
      requires Valid() && Terminated(timezone, n) && zoneCount < MAX_TIMEZONES
      modifies this, timezone
      ensures Valid() && zonesCaps == old(zonesCaps) + [old(timezone[..n])]
    {
      var zoneCaps := ReadString(timezone, n);
      LowerInPlace(timezone, n);
      var zone := ReadString(timezone, n);
      PopulateZoneDb(zone, zoneCaps);
    }

    /** find_posix_timezones_and_add_to_list. */
    method FindPosixTimezones(name: string, es: seq<Entry>)
      requires Valid() && FitsBuffers(name, es) && '\0' !in name
      requires zoneCount + |Leaves(name, es, true)| <= MAX_TIMEZONES
      modifies this
      ensures Valid() && zonesCaps == old(zonesCaps) + ZoneNames(Leaves(name, es, true))
      decreases es
    {
      var i := 0;
      ghost var before := zonesCaps;
      while i < |es|
        invariant 0 <= i <= |es| && Valid()
        invariant zonesCaps + ZoneNames(Leaves(name, es[i..], true)) == before + ZoneNames(Leaves(name, es, true))
        invariant zoneCount + |Leaves(name, es[i..], true)| <= MAX_TIMEZONES
      {
        LeavesStep(name, es, i, zonesCaps);
        VisitEntry(name, es[i]);
        i := i + 1;
      }
    }

    /** The body of the loop over readdir. */
    method VisitEntry(name: string, e: Entry)
      requires Valid() && EntryFits(name, e) && '\0' !in name
      requires zoneCount + |LeavesOfEntry(name, e, true)| <= MAX_TIMEZONES
      modifies this
      ensures Valid() && zonesCaps == old(zonesCaps) + ZoneNames(LeavesOfEntry(name, e, true))
      decreases e
    {
      var path := name + "/" + e.name;
      if e.Directory? {
        FindPosixTimezones(path, e.entries);
      } else if !e.Dots? {
        var localDir := BufferOf(path);
        ghost var n := RemoveBasePath(localDir, |path|, BASE_PATH);
        AddInfoToCmdOptions(localDir, n);
        assert ZoneNames([path]) == [ZoneName(path)];
      } else {
        assert ZoneNames([]) == [];
      }
    }
  }

  lemma LeavesStep(dir: string, es: seq<Entry>, i: nat, stored: seq<string>)
    requires i < |es|
    ensures var here, later := LeavesOfEntry(dir, es[i], true), Leaves(dir, es[i + 1..], true);
            && Leaves(dir, es[i..], true) == here + later
            && stored + ZoneNames(Leaves(dir, es[i..], true)) == (stored + ZoneNames(here)) + ZoneNames(later)
  {
    assert es[i..][1..] == es[i + 1..];
    ZoneNamesConcat(LeavesOfEntry(dir, es[i], true), Leaves(dir, es[i + 1..], true));
  }

  lemma ZoneNamesConcat(a: seq<string>, b: seq<string>)
    ensures ZoneNames(a + b) == ZoneNames(a) + ZoneNames(b)
  {
  }

  /** snprintf of a path into the hundred-character buffer. */
  method BufferOf(path: string) returns (buf: array<char>)
    requires |path| < MAX_TIMEZONE_NAME_SIZE && '\0' !in path
    ensures fresh(buf) && Terminated(buf, |path|) && buf[..|path|] == path
  {
    buf := new char[MAX_TIMEZONE_NAME_SIZE](_ => '\0');
    for i := 0 to |path|
      invariant forall j :: 0 <= j < i ==> buf[j] == path[j]
      invariant forall j :: i <= j < buf.Length ==> buf[j] == '\0'
    {
      buf[i] := path[i];
    }
    assert forall j :: 0 <= j < |path| ==> path[j] in path;
  }

  /** strcpy out of a buffer. */
  method ReadString(buf: array<char>, ghost n: nat) returns (s: string)
    requires Terminated(buf, n)
    ensures s == buf[..n]
  {
    s := [];
    var i := 0;
    while buf[i] != '\0'
      invariant i <= n && s == buf[..i]
      decreases n - i
    {
      s := s + [buf[i]];
      i := i + 1;
    }
  }

  // ----- the REST validator

  /** os.path.join for a plain file or directory name. */
  function Join(root: string, name: string): string {
    if root == "" || root[|root| - 1] == '/' then root + name else root + "/" + name
  }

  /** The file names os.walk reports for a directory: links to directories count as directories. */
  function FileNames(es: seq<Entry>): seq<string> {
    if es == [] then []
    else (if es[0].File? || (es[0].Link? && !es[0].toDirectory) then [es[0].name] else []) + FileNames(es[1..])
  }

  /** What os.walk yields, top down, links not followed: directories with their file names. */
  function OsWalk(root: string, es: seq<Entry>): seq<(string, seq<string>)>
    decreases es, 1
  {
    [(root, FileNames(es))] + OsWalkBelow(root, es)
  }

  function OsWalkBelow(root: string, es: seq<Entry>): seq<(string, seq<string>)>
    decreases es, 0
  {
    if es == [] then []
    else (if es[0].Directory? then OsWalk(Join(root, es[0].name), es[0].entries) else []) + OsWalkBelow(root, es[1..])
  }

  ghost function Joined(root: string, names: seq<string>): set<string> {
    set k | 0 <= k < |names| :: Join(root, names[k])
  }

  lemma JoinedStep(root: string, names: seq<string>, j: nat)
    requires j < |names|
    ensures Joined(root, names[..j + 1]) == Joined(root, names[..j]) + {Join(root, names[j])}
  {
    var a, b := names[..j + 1], names[..j];
    assert forall k :: 0 <= k < j ==> a[k] == b[k];
    assert a[j] == names[j];
  }

  /** The full paths of the files of a walk. */
  ghost function WalkPaths(walk: seq<(string, seq<string>)>): set<string> {
    if walk == [] then {} else WalkPaths(walk[..|walk| - 1]) + Joined(walk[|walk| - 1].0, walk[|walk| - 1].1)
  }

  /** The names REST validation accepts when its dictionary is built from this tree. */
  ghost function RestNames(es: seq<Entry>): set<string> {
    set p | p in WalkPaths(OsWalk("/usr/share/zoneinfo/posix/", es)) :: RemoveAll(p, "/usr/share/zoneinfo/posix/")
  }

  class Validator {
    /** The module-level list_of_timezones. */
    var listOfTimezones: Option<map<string, string>>

    constructor ()
      ensures listOfTimezones == None
    {
      listOfTimezones := None;
    }

    /** build_timezone_db, into the dictionary that check_valid_timezone has just created. */
    method BuildTimezoneDb(es: seq<Entry>)
      requires listOfTimezones.Some?
      modifies this
      ensures listOfTimezones.Some? && listOfTimezones.value.Keys == old(listOfTimezones.value.Keys) + RestNames(es)
    {
      var walk := OsWalk(BASE_PATH, es);
      var db := listOfTimezones.value;
      ghost var paths: set<string> := {};
      for i := 0 to |walk|
        invariant paths == WalkPaths(walk[..i])
        invariant db.Keys == old(listOfTimezones.value.Keys) + set p | p in paths :: RemoveAll(p, BASE_PATH)
      {
        assert walk[..i + 1][..i] == walk[..i];
        var root, fileNames := walk[i].0, walk[i].1;
        ghost var before := paths;
        for j := 0 to |fileNames|
          invariant paths == before + Joined(root, fileNames[..j])
          invariant db.Keys == old(listOfTimezones.value.Keys) + set p | p in paths :: RemoveAll(p, BASE_PATH)
        {
          JoinedStep(root, fileNames, j);
          var fullPath := Join(root, fileNames[j]);
          var timezone := RemoveAll(fullPath, BASE_PATH);
          db := db[timezone := fullPath];
          paths := paths + {fullPath};
        }
        assert fileNames[..|fileNames|] == fileNames;
      }
      assert walk[..|walk|] == walk;
      listOfTimezones := Some(db);
    }

    /** check_valid_timezone: the dictionary is built on first use and kept. */
    method CheckValidTimezone(es: seq<Entry>, timezone: string) returns (ok: bool)
      modifies this
      ensures ok <==> Accepts(old(listOfTimezones), es, timezone)
      ensures listOfTimezones.Some?
      ensures if old(listOfTimezones).Some? then listOfTimezones == old(listOfTimezones)
              else listOfTimezones.value.Keys == RestNames(es)
    {
      if listOfTimezones.None? {
        listOfTimezones := Some(map[]);
        BuildTimezoneDb(es);
      }
      ok := timezone in listOfTimezones.value.Keys;
    }

    /** validate_modification: a row with a timezone is rejected, with the name, unless that is valid. */
    method ValidateModification(es: seq<Entry>, timezone: Option<string>) returns (rejected: Option<string>)
      modifies this
      ensures rejected ==
              if timezone.Some? && !Accepts(old(listOfTimezones), es, timezone.value) then timezone else None
      ensures if old(listOfTimezones).Some? || timezone.None? then listOfTimezones == old(listOfTimezones)
              else listOfTimezones.Some? && listOfTimezones.value.Keys == RestNames(es)
    {
      if timezone.Some? {
        var ok := CheckValidTimezone(es, timezone.value);
        if !ok {
          return timezone;
        }
      }
      return None;
    }
  }

  /** REST validation accepts a name by the dictionary it has, or else by the one it builds. */
  ghost predicate Accepts(dictionary: Option<map<string, string>>, es: seq<Entry>, timezone: string) {
    timezone in if dictionary.Some? then dictionary.value.Keys else RestNames(es)
  }

  // ----- the two walks agree, except on links to directories

  lemma {:induction false} WalkPathsConcat(a: seq<(string, seq<string>)>, b: seq<(string, seq<string>)>)
    ensures WalkPaths(a + b) == WalkPaths(a) + WalkPaths(b)
    decreases |b|
  {
    if b == [] {
      assert a + b == a;
    } else {
      assert (a + b)[..|a + b| - 1] == a + b[..|b| - 1];
      WalkPathsConcat(a, b[..|b| - 1]);
    }
  }

  ghost function SetOf(s: seq<string>): set<string> {
    set x | x in s
  }

  /** Names are as a file system has them: not empty, without a slash, and unique in their directory. */
  predicate Plain(es: seq<Entry>)
    decreases es
  {
    && (forall i :: 0 <= i < |es| ==> PlainEntry(es[i]))
    && (forall i, j :: 0 <= i < j < |es| ==> es[i].name != es[j].name)
  }

  predicate PlainEntry(e: Entry)
    decreases e
  {
    e.name != "" && '/' !in e.name && (e.Directory? ==> Plain(e.entries))
  }

  lemma PlainTail(es: seq<Entry>)
    requires es != [] && Plain(es)
    ensures PlainEntry(es[0]) && Plain(es[1..])
    ensures forall i :: 0 <= i < |es[1..]| ==> es[1..][i].name != es[0].name
  {
    var tail := es[1..];
    assert forall i :: 0 <= i < |tail| ==> tail[i] == es[i + 1];
  }

  /** The root of a walk, which may come with a slash at the end. */
  predicate IsRoot(root: string, dir: string) {
    dir != "" && dir[|dir| - 1] != '/' && (root == dir || root == dir + "/")
  }

  lemma JoinIs(root: string, dir: string, name: string)
    requires IsRoot(root, dir)
    ensures Join(root, name) == dir + "/" + name
  {
  }

  lemma SubRoot(root: string, dir: string, name: string)
    requires IsRoot(root, dir) && name != "" && '/' !in name
    ensures IsRoot(Join(root, name), dir + "/" + name)
  {
    JoinIs(root, dir, name);
    assert name[|name| - 1] in name;
  }

  /** os.walk and the recursive walk find the same files. */
  lemma {:induction false} OsWalkFinds(root: string, dir: string, es: seq<Entry>)
    requires IsRoot(root, dir) && Plain(es)
    ensures WalkPaths(OsWalk(root, es)) == SetOf(Leaves(dir, es, false))
    decreases es, 1
  {
    var head := [(root, FileNames(es))];
    assert head[..0] == [];
    assert WalkPaths(head) == Joined(root, FileNames(es));
    WalkPathsConcat(head, OsWalkBelow(root, es));
    OsWalkBelowFinds(root, dir, es);
  }

  lemma {:induction false} OsWalkBelowFinds(root: string, dir: string, es: seq<Entry>)
    requires IsRoot(root, dir) && Plain(es)
    ensures Joined(root, FileNames(es)) + WalkPaths(OsWalkBelow(root, es)) == SetOf(Leaves(dir, es, false))
    decreases es, 0
  {
    if es == [] {
    } else {
      var e := es[0];
      PlainTail(es);
      OsWalkBelowFinds(root, dir, es[1..]);
      JoinIs(root, dir, e.name);
      SetOfConcat(LeavesOfEntry(dir, e, false), Leaves(dir, es[1..], false));
      var j, w := Joined(root, FileNames(es[1..])), WalkPaths(OsWalkBelow(root, es[1..]));
      if e.Directory? {
        SubRoot(root, dir, e.name);
        OsWalkFinds(Join(root, e.name), dir + "/" + e.name, e.entries);
        WalkPathsConcat(OsWalk(Join(root, e.name), e.entries), OsWalkBelow(root, es[1..]));
        assert FileNames(es) == FileNames(es[1..]);
        Unions(j, WalkPaths(OsWalk(Join(root, e.name), e.entries)), w);
      } else {
        HeadFiles(root, dir, es);
        assert OsWalkBelow(root, es) == OsWalkBelow(root, es[1..]);
        Unions(SetOf(LeavesOfEntry(dir, e, false)), j, w);
      }
    }
  }

  lemma Unions(a: set<string>, b: set<string>, c: set<string>)
    ensures (a + b) + c == a + (b + c)
    ensures a + (b + c) == b + (a + c)
  {
  }

  lemma HeadFiles(root: string, dir: string, es: seq<Entry>)
    requires es != [] && !es[0].Directory?
    requires IsRoot(root, dir)
    ensures Joined(root, FileNames(es)) == SetOf(LeavesOfEntry(dir, es[0], false)) + Joined(root, FileNames(es[1..]))
  {
    var e := es[0];
    JoinIs(root, dir, e.name);
    if e.File? || (e.Link? && !e.toDirectory) {
      JoinedCons(root, e.name, FileNames(es[1..]));
      assert SetOf(LeavesOfEntry(dir, e, false)) == {dir + "/" + e.name};
    } else {
      assert FileNames(es) == FileNames(es[1..]);
    }
  }

  lemma JoinedCons(root: string, name: string, names: seq<string>)
    ensures Joined(root, [name] + names) == {Join(root, name)} + Joined(root, names)
  {
    var all := [name] + names;
    assert all[0] == name;
    assert forall k :: 0 <= k < |names| ==> all[k + 1] == names[k];
  }

  /** The full paths of the links to directories. */
  function DirLinks(dir: string, es: seq<Entry>): seq<string>
    decreases es
  {
    if es == [] then [] else DirLinksOfEntry(dir, es[0]) + DirLinks(dir, es[1..])
  }

  function DirLinksOfEntry(dir: string, e: Entry): seq<string>
    decreases e
  {
    match e
    case Link(name, toDirectory) => if toDirectory then [dir + "/" + name] else []
    case Directory(name, entries) => DirLinks(dir + "/" + name, entries)
    case _ => []
  }

  /** The CLI's walk finds the files and, on top, the links to directories. */
  lemma {:induction false} LeavesSplit(dir: string, es: seq<Entry>)
    ensures SetOf(Leaves(dir, es, true)) == SetOf(Leaves(dir, es, false)) + SetOf(DirLinks(dir, es))
    decreases es
  {
    if es != [] {
      LeavesSplit(dir, es[1..]);
      var e := es[0];
      if e.Directory? {
        LeavesSplit(dir + "/" + e.name, e.entries);
      }
      assert SetOf(LeavesOfEntry(dir, e, true)) == SetOf(LeavesOfEntry(dir, e, false)) + SetOf(DirLinksOfEntry(dir, e));
      SetOfConcat(LeavesOfEntry(dir, e, true), Leaves(dir, es[1..], true));
      SetOfConcat(LeavesOfEntry(dir, e, false), Leaves(dir, es[1..], false));
      SetOfConcat(DirLinksOfEntry(dir, e), DirLinks(dir, es[1..]));
    }
  }

  lemma SetOfConcat(a: seq<string>, b: seq<string>)
    ensures SetOf(a + b) == SetOf(a) + SetOf(b)
  {
  }

  /** The path is the entry's own or lies below it. */
  predicate Under(path: string, dir: string, name: string) {
    path == dir + "/" + name || dir + "/" + name + "/" <= path
  }

  lemma {:induction false} LeavesUnder(dir: string, es: seq<Entry>, dirLinks: bool, p: string)
    requires p in Leaves(dir, es, dirLinks)
    ensures exists i :: 0 <= i < |es| && Under(p, dir, es[i].name)
    decreases es, 1
  {
    if p in LeavesOfEntry(dir, es[0], dirLinks) {
      EntryUnder(dir, es[0], dirLinks, p);
    } else {
      LeavesUnder(dir, es[1..], dirLinks, p);
      var i :| 0 <= i < |es[1..]| && Under(p, dir, es[1..][i].name);
      assert es[1..][i] == es[i + 1];
    }
  }

  lemma {:induction false} EntryUnder(dir: string, e: Entry, dirLinks: bool, p: string)
    requires p in LeavesOfEntry(dir, e, dirLinks)
    ensures Under(p, dir, e.name)
    decreases e, 0
  {
    if e.Directory? {
      var sub := dir + "/" + e.name;
      LeavesUnder(sub, e.entries, dirLinks, p);
      var i :| 0 <= i < |e.entries| && Under(p, sub, e.entries[i].name);
      assert sub + "/" <= sub + "/" + e.entries[i].name <= p;
    }
  }

  /** No path lies under two names. */
  lemma UnderOne(p: string, dir: string, a: string, b: string)
    requires Under(p, dir, a) && Under(p, dir, b)
    requires '/' !in a && '/' !in b
    ensures a == b
  {
    var n := |dir| + 1;
    assert p[n..n + |a|] == a && p[n..n + |b|] == b;
    assert n + |a| < |p| ==> p[n + |a|] == '/';
    assert n + |b| < |p| ==> p[n + |b|] == '/';
  }

  /** The path of a link to a directory is nobody else's. */
  lemma {:induction false} DirLinkIsNoFile(dir: string, es: seq<Entry>, p: string)
    requires Plain(es) && p in DirLinks(dir, es)
    ensures p !in Leaves(dir, es, false)
    decreases es
  {
    var e, tail := es[0], es[1..];
    PlainTail(es);
    if p in DirLinksOfEntry(dir, e) {
      LeavesSplitEntry(dir, e, p);
      EntryUnder(dir, e, true, p);
      if p in Leaves(dir, tail, false) {
        LeavesUnder(dir, tail, false, p);
        var i :| 0 <= i < |tail| && Under(p, dir, tail[i].name);
        UnderOne(p, dir, e.name, tail[i].name);
      }
      if e.Directory? {
        DirLinkIsNoFile(dir + "/" + e.name, e.entries, p);
      }
    } else {
      DirLinkIsNoFile(dir, tail, p);
      LeavesSplit(dir, tail);
      assert p in SetOf(DirLinks(dir, tail)) && p in SetOf(Leaves(dir, tail, true));
      LeavesUnder(dir, tail, true, p);
      var i :| 0 <= i < |tail| && Under(p, dir, tail[i].name);
      if p in LeavesOfEntry(dir, e, false) {
        EntryUnder(dir, e, false, p);
        UnderOne(p, dir, e.name, tail[i].name);
      }
    }
  }

  lemma LeavesSplitEntry(dir: string, e: Entry, p: string)
    requires p in DirLinksOfEntry(dir, e)
    ensures p in LeavesOfEntry(dir, e, true)
  {
    if e.Directory? {
      LeavesSplit(dir + "/" + e.name, e.entries);
      assert p in SetOf(DirLinks(dir + "/" + e.name, e.entries));
    }
  }

  // ----- leaves as places in the tree

  /** The entry at a place, given by an index into each directory on the way. */
  function EntryAt(es: seq<Entry>, place: seq<nat>): Option<Entry>
    decreases |place|
  {
    if place == [] || place[0] >= |es| then None
    else if |place| == 1 then Some(es[place[0]])
    else if es[place[0]].Directory? then EntryAt(es[place[0]].entries, place[1..])
    else None
  }

  function PathAt(dir: string, es: seq<Entry>, place: seq<nat>): string
    requires EntryAt(es, place).Some?
    decreases |place|
  {
    var e := es[place[0]];
    var path := dir + "/" + e.name;
    if |place| == 1 then path else PathAt(path, e.entries, place[1..])
  }

  ghost predicate IsLeaf(e: Entry, dirLinks: bool) {
    e.File? || (e.Link? && (dirLinks || !e.toDirectory))
  }

  ghost predicate LeafAt(dir: string, es: seq<Entry>, place: seq<nat>, dirLinks: bool, p: string) {
    EntryAt(es, place).Some? && IsLeaf(EntryAt(es, place).value, dirLinks) && p == PathAt(dir, es, place)
  }

  /** The walk reaches exactly the paths of the files and links in the tree. */
  lemma LeavesMean(dir: string, es: seq<Entry>, dirLinks: bool, p: string)
    ensures p in Leaves(dir, es, dirLinks) <==> exists place :: LeafAt(dir, es, place, dirLinks, p)
  {
    if p in Leaves(dir, es, dirLinks) {
      var place := PlaceOfLeaf(dir, es, dirLinks, p);
    }
    if exists place :: LeafAt(dir, es, place, dirLinks, p) {
      var place :| LeafAt(dir, es, place, dirLinks, p);
      LeafInLeaves(dir, es, place, dirLinks, p);
    }
  }

  lemma {:induction false} PlaceOfLeaf(dir: string, es: seq<Entry>, dirLinks: bool, p: string)
    returns (place: seq<nat>)
    requires p in Leaves(dir, es, dirLinks)
    ensures LeafAt(dir, es, place, dirLinks, p)
    decreases es
  {
    var e := es[0];
    if p in LeavesOfEntry(dir, e, dirLinks) {
      if e.Directory? {
        var below := PlaceOfLeaf(dir + "/" + e.name, e.entries, dirLinks, p);
        place := [0] + below;
        assert place[1..] == below;
      } else {
        place := [0];
      }
    } else {
      var later := PlaceOfLeaf(dir, es[1..], dirLinks, p);
      place := [later[0] + 1] + later[1..];
      assert place[1..] == later[1..];
    }
  }

  lemma {:induction false} LeafInLeaves(dir: string, es: seq<Entry>, place: seq<nat>, dirLinks: bool, p: string)
    requires LeafAt(dir, es, place, dirLinks, p)
    ensures p in Leaves(dir, es, dirLinks)
    decreases |place|
  {
    var e := es[place[0]];
    if e.Directory? {
      assert |place| > 1;
      LeafInLeaves(dir + "/" + e.name, e.entries, place[1..], dirLinks, p);
    }
    LeavesOfOne(dir, es, place[0], dirLinks, p);
  }

  lemma {:induction false} LeavesOfOne(dir: string, es: seq<Entry>, i: nat, dirLinks: bool, p: string)
    requires i < |es| && p in LeavesOfEntry(dir, es[i], dirLinks)
    ensures p in Leaves(dir, es, dirLinks)
    decreases i
  {
    if i > 0 {
      LeavesOfOne(dir, es[1..], i - 1, dirLinks, p);
    }
  }

  // ----- the theorems

  lemma BasePathIsRoot()
    ensures IsRoot(BASE_PATH, POSIX_DIR) && BASE_PATH == POSIX_DIR + "/"
  {
  }

  /** The names in the CLI's tables. */
  ghost function CliNames(es: seq<Entry>): set<string> {
    SetOf(ZoneNames(Leaves("/usr/share/zoneinfo/posix", es, true)))
  }

  lemma NamesOf(paths: seq<string>)
    ensures SetOf(ZoneNames(paths)) == set p | p in SetOf(paths) :: RemoveAll(p, BASE_PATH)
  {
    var names := ZoneNames(paths);
    forall n | n in SetOf(names)
      ensures exists p :: p in SetOf(paths) && RemoveAll(p, BASE_PATH) == n
    {
      var i :| 0 <= i < |names| && names[i] == n;
      assert paths[i] in SetOf(paths);
    }
    forall p | p in SetOf(paths)
      ensures ZoneName(p) in SetOf(names)
    {
      var i :| 0 <= i < |paths| && paths[i] == p;
      assert names[i] == ZoneName(p);
    }
  }

  /** The CLI knows the names REST validation accepts, and those of links to directories.  So without
      such links, every zone the CLI can store passes the validation, and the other way round. */
  lemma CliNamesAreRestNamesAndDirLinks(es: seq<Entry>)
    requires Plain(es)
    ensures CliNames(es) == RestNames(es) + SetOf(ZoneNames(DirLinks(POSIX_DIR, es)))
    ensures DirLinks(POSIX_DIR, es) == [] ==> CliNames(es) == RestNames(es)
  {
    BasePathIsRoot();
    OsWalkFinds(BASE_PATH, POSIX_DIR, es);
    LeavesSplit(POSIX_DIR, es);
    NamesOf(Leaves(POSIX_DIR, es, true));
    NamesOf(DirLinks(POSIX_DIR, es));
  }

  /** The base path does not occur a second time in a path below it. */
  ghost predicate BasePathOnce(es: seq<Entry>) {
    forall p :: p in Leaves(POSIX_DIR, es, true) && |BASE_PATH| <= |p| ==>
      NoneIn(p[|BASE_PATH|..], BASE_PATH, 0, |p| - |BASE_PATH|)
  }

  /** A path below the base path is named relative to it if and only if the base path does not occur in
      it a second time. */
  lemma ZoneNameIsRelativeIff(es: seq<Entry>, p: string)
    requires p in Leaves("/usr/share/zoneinfo/posix", es, true)
    ensures "/usr/share/zoneinfo/posix/" <= p
    ensures var rest := p[26..];
            ZoneName(p) == rest <==> NoneIn(rest, "/usr/share/zoneinfo/posix/", 0, |rest|)
  {
    BasePathIsRoot();
    LeavesUnder(POSIX_DIR, es, true, p);
    var i :| 0 <= i < |es| && Under(p, POSIX_DIR, es[i].name);
    assert BASE_PATH <= BASE_PATH + es[i].name <= p;
    assert |BASE_PATH| == 26;
    RemoveAllKeepsIff(p[26..], BASE_PATH);
  }

  lemma ZoneNameIsRelative(es: seq<Entry>, p: string)
    requires BasePathOnce(es) && p in Leaves(POSIX_DIR, es, true)
    ensures BASE_PATH <= p && ZoneName(p) == p[|BASE_PATH|..]
  {
    ZoneNameIsRelativeIff(es, p);
  }

  /** The two name sets are equal if and only if every link to a directory shares its name with a file. */
  lemma NamesAgreeIffLinksShare(es: seq<Entry>)
    requires Plain(es)
    ensures CliNames(es) == RestNames(es) <==>
            forall p :: p in DirLinks(POSIX_DIR, es) ==>
              exists q :: q in Leaves(POSIX_DIR, es, false) && ZoneName(q) == ZoneName(p)
  {
    var links, files := DirLinks(POSIX_DIR, es), Leaves(POSIX_DIR, es, false);
    CliNamesAreRestNamesAndDirLinks(es);
    BasePathIsRoot();
    OsWalkFinds(BASE_PATH, POSIX_DIR, es);
    NamesOf(links);
    forall p | p in links
      ensures ZoneName(p) in RestNames(es) <==> exists q :: q in files && ZoneName(q) == ZoneName(p)
      ensures ZoneName(p) in SetOf(ZoneNames(links))
    {
      assert p in SetOf(links);
      if ZoneName(p) in RestNames(es) {
        var q :| q in WalkPaths(OsWalk(BASE_PATH, es)) && RemoveAll(q, BASE_PATH) == ZoneName(p);
        assert q in SetOf(files);
      }
      if exists q :: q in files && ZoneName(q) == ZoneName(p) {
        var q :| q in files && ZoneName(q) == ZoneName(p);
        assert q in SetOf(files);
      }
    }
    forall n | n in SetOf(ZoneNames(links))
      ensures exists p :: p in links && ZoneName(p) == n
    {
      var i :| 0 <= i < |links| && ZoneNames(links)[i] == n;
      assert links[i] in links;
    }
  }

  /** With the base path once in every path, that is: if and only if the tree holds no link to a directory. */
  lemma NamesAgreeIffNoDirLinks(es: seq<Entry>)
    requires Plain(es) && BasePathOnce(es)
    ensures CliNames(es) == RestNames(es) <==> DirLinks(POSIX_DIR, es) == []
  {
    CliNamesAreRestNamesAndDirLinks(es);
    var links := DirLinks(POSIX_DIR, es);
    if links != [] {
      var p := links[0];
      DirLinkNameIsUnknown(es, p);
      assert ZoneNames(links)[0] == ZoneName(p);
      assert ZoneName(p) in SetOf(ZoneNames(links));
    }
  }

  /** REST validation rejects the name of a link to a directory, which the CLI stores. */
  lemma DirLinkNameIsUnknown(es: seq<Entry>, p: string)
    requires Plain(es) && BasePathOnce(es) && p in DirLinks(POSIX_DIR, es)
    ensures ZoneName(p) !in RestNames(es)
  {
    BasePathIsRoot();
    LeavesSplit(POSIX_DIR, es);
    assert p in SetOf(DirLinks(POSIX_DIR, es)) && p in SetOf(Leaves(POSIX_DIR, es, true));
    OsWalkFinds(BASE_PATH, POSIX_DIR, es);
    DirLinkIsNoFile(POSIX_DIR, es, p);
    ZoneNameIsRelative(es, p);
    forall q | q in WalkPaths(OsWalk(BASE_PATH, es))
      ensures RemoveAll(q, BASE_PATH) != ZoneName(p)
    {
      assert q in SetOf(Leaves(POSIX_DIR, es, false)) && q in SetOf(Leaves(POSIX_DIR, es, true));
      ZoneNameIsRelative(es, q);
      assert q == BASE_PATH + q[|BASE_PATH|..] && p == BASE_PATH + p[|BASE_PATH|..];
    }
  }

  /** The names in the CLI's tables that REST validation rejects. */
  lemma UnknownNames(es: seq<Entry>, n: string)
    requires Plain(es) && BasePathOnce(es) && n in CliNames(es)
    ensures n !in RestNames(es) <==> n in SetOf(ZoneNames(DirLinks(POSIX_DIR, es)))
  {
    CliNamesAreRestNamesAndDirLinks(es);
    var links := DirLinks(POSIX_DIR, es);
    if n in SetOf(ZoneNames(links)) {
      var i :| 0 <= i < |links| && ZoneNames(links)[i] == n;
      DirLinkNameIsUnknown(es, links[i]);
    }
  }

  // ----- each leaf once

  ghost predicate NoDuplicates(s: seq<string>) {
    forall i, j :: 0 <= i < j < |s| ==> s[i] != s[j]
  }

  lemma NoDuplicatesConcat(a: seq<string>, b: seq<string>)
    requires NoDuplicates(a) && NoDuplicates(b) && forall x :: x in a ==> x !in b
    ensures NoDuplicates(a + b)
  {
    forall i, j | 0 <= i < j < |a + b|
      ensures (a + b)[i] != (a + b)[j]
    {
      if i < |a| <= j {
        assert (a + b)[i] in a && (a + b)[j] in b;
      }
    }
  }

  /** The walk reaches every path once. */
  lemma {:induction false} LeavesOnce(dir: string, es: seq<Entry>, dirLinks: bool)
    requires Plain(es)
    ensures NoDuplicates(Leaves(dir, es, dirLinks))
    decreases es
  {
    if es != [] {
      var e, tail := es[0], es[1..];
      PlainTail(es);
      LeavesOnce(dir, tail, dirLinks);
      if e.Directory? {
        LeavesOnce(dir + "/" + e.name, e.entries, dirLinks);
      }
      forall p | p in LeavesOfEntry(dir, e, dirLinks)
        ensures p !in Leaves(dir, tail, dirLinks)
      {
        EntryUnder(dir, e, dirLinks, p);
        if p in Leaves(dir, tail, dirLinks) {
          LeavesUnder(dir, tail, dirLinks, p);
          var i :| 0 <= i < |tail| && Under(p, dir, tail[i].name);
          UnderOne(p, dir, e.name, tail[i].name);
        }
      }
      NoDuplicatesConcat(LeavesOfEntry(dir, e, dirLinks), Leaves(dir, tail, dirLinks));
    }
  }

  /** The CLI's tables hold every zone name once. */
  lemma ZonesStoredOnce(es: seq<Entry>)
    requires Plain(es) && BasePathOnce(es)
    ensures NoDuplicates(ZoneNames(Leaves(POSIX_DIR, es, true)))
  {
    var leaves := Leaves(POSIX_DIR, es, true);
    LeavesOnce(POSIX_DIR, es, true);
    forall i, j | 0 <= i < j < |leaves|
      ensures ZoneName(leaves[i]) != ZoneName(leaves[j])
    {
      ZoneNameIsRelative(es, leaves[i]);
      ZoneNameIsRelative(es, leaves[j]);
      assert leaves[i] == BASE_PATH + leaves[i][|BASE_PATH|..] && leaves[j] == BASE_PATH + leaves[j][|BASE_PATH|..];
    }
  }
}
