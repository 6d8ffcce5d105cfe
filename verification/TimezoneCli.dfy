/** The timezone commands of the CLI, the line that show running-config prints for the timezone, and
    what becomes of that line when it is entered again.
 */
module TimezoneCli {
  import opened Wrappers
  import opened CStrings
  import opened ZoneTree

  const DEFAULT_TIMEZONE := "utc"

  /** The System row of the database. */
  class System {
    var timezone: Option<string>
  }

  datatype Status = CmdSuccess | CmdErrNoMatch

  // ----- what the commands store

  /** The first zone with this lower-case name. */
  function FirstZone(zonesCaps: seq<string>, name: string): Option<string> {
    if zonesCaps == [] then None
    else if Lower(zonesCaps[0]) == name then Some(zonesCaps[0])
    else FirstZone(zonesCaps[1..], name)
  }

  /** The zone a command is about to look up: without a timezone column always the default; for the
      no form the default if the argument names the configured zone, and otherwise nothing. */
  function Requested(current: Option<string>, argument: string, noForm: bool): Option<string> {
    if current.None? then Some(DEFAULT_TIMEZONE)
    else if !noForm then Some(argument)
    else if Lower(current.value) == argument then Some(DEFAULT_TIMEZONE)
    else None
  }

  /** The zone a command stores; None if it is rejected. */
  function Chosen(zonesCaps: seq<string>, current: Option<string>, argument: string, noForm: bool): Option<string> {
    var name := Requested(current, argument, noForm);
    if name.None? then None else FirstZone(zonesCaps, name.value)
  }

  /** translate_cmd_to_filepath. */
  method TranslateCmdToFilepath(db: ZoneDb, cmd: string) returns (index: int)
    requires db.Valid()
    ensures -1 <= index < |db.zonesCaps|
    ensures FirstZone(db.zonesCaps, cmd) == if index < 0 then None else Some(db.zonesCaps[index])
    ensures index >= 0 ==> Lower(db.zonesCaps[index]) == cmd
    ensures forall k :: 0 <= k < (if index < 0 then |db.zonesCaps| else index) ==> Lower(db.zonesCaps[k]) != cmd
  {
    for i := 0 to db.zoneCount
      invariant FirstZone(db.zonesCaps, cmd) == FirstZone(db.zonesCaps[i..], cmd)
      invariant forall k :: 0 <= k < i ==> Lower(db.zonesCaps[k]) != cmd
    {
      assert db.zonesCaps[i..][0] == db.zonesCaps[i] && db.zonesCaps[i..][1..] == db.zonesCaps[i + 1..];
      if db.zones[i] == cmd {
        return i;
      }
    }
    return -1;
  }

  /** cli_set_timezone.  The row may be missing, the transaction may not start, and it may not commit. */
  method CliSetTimezone(db: ZoneDb, ovs: System?, argument: string, noForm: bool, starts: bool, commits: bool)
    returns (status: Status)
    requires db.Valid()
    modifies ovs
    ensures ovs == null || !starts ==> status == CmdSuccess && (ovs != null ==> ovs.timezone == old(ovs.timezone))
    ensures ovs != null && starts ==>
              var zone := Chosen(db.zonesCaps, old(ovs.timezone), argument, noForm);
              && (status == CmdErrNoMatch <==> zone.None?)
              && ovs.timezone == if zone.Some? && commits then zone else old(ovs.timezone)
  {
    if ovs == null || !starts {
      return CmdSuccess;
    }
    var timezoneCmd := DEFAULT_TIMEZONE;
    if ovs.timezone.Some? {
      var timezoneFromOvsdb := LowerCopy(ovs.timezone.value);
      if noForm && timezoneFromOvsdb == argument {
        timezoneCmd := DEFAULT_TIMEZONE;
      } else if !noForm {
        timezoneCmd := argument;
      } else {
        return CmdErrNoMatch;
      }
    }
    var index := TranslateCmdToFilepath(db, timezoneCmd);
    if index < 0 {
      return CmdErrNoMatch;
    }
    if commits {
      ovs.timezone := Some(db.zonesCaps[index]);
    }
    return CmdSuccess;
  }

  /** The loop that copies a zone and lower-cases the copy. */
  method LowerCopy(zone: string) returns (lower: string)
    ensures lower == Lower(zone)
    ensures forall i :: 0 <= i < |lower| ==> !IsUpper(lower[i])
  {
    lower := zone;
    for i := 0 to |zone|
      invariant |lower| == |zone|
      invariant forall j :: 0 <= j < i ==> lower[j] == ToLower(zone[j])
      invariant forall j :: i <= j < |zone| ==> lower[j] == zone[j]
    {
      lower := lower[i := ToLower(lower[i])];
    }
  }

  const TIMEZONE_SET := "timezone set "

  /** vtysh_config_context_system_callback: the line printed for the timezone. */
  method RunningConfig(row: System?) returns (line: Option<string>)
    ensures line == if row == null || row.timezone.None? then None
                    else Some("timezone set " + Lower(row.timezone.value))
    ensures line.Some? ==> forall i :: 0 <= i < |line.value| ==> !IsUpper(line.value[i])
  {
    if row == null || row.timezone.None? {
      return None;
    }
    var timezone := LowerCopy(row.timezone.value);
    return Some(TIMEZONE_SET + timezone);
  }

  // ----- save and replay

  /** Zone i is the first with this lower-case name. */
  ghost predicate IsFirst(zonesCaps: seq<string>, name: string, i: int) {
    0 <= i < |zonesCaps| && Lower(zonesCaps[i]) == name && forall k :: 0 <= k < i ==> Lower(zonesCaps[k]) != name
  }

  lemma {:induction false} FirstZoneFound(zonesCaps: seq<string>, name: string)
    ensures var z := FirstZone(zonesCaps, name);
            && (z.Some? ==> z.value in zonesCaps && Lower(z.value) == name)
            && (z.Some? <==> exists c :: c in zonesCaps && Lower(c) == name)
            && (z.Some? ==> exists i :: IsFirst(zonesCaps, name, i) && z.value == zonesCaps[i])
    decreases |zonesCaps|
  {
    if zonesCaps != [] && Lower(zonesCaps[0]) == name {
      assert IsFirst(zonesCaps, name, 0);
    }
    if zonesCaps != [] && Lower(zonesCaps[0]) != name {
      FirstZoneFound(zonesCaps[1..], name);
      forall i | IsFirst(zonesCaps[1..], name, i)
        ensures IsFirst(zonesCaps, name, i + 1) && zonesCaps[1..][i] == zonesCaps[i + 1]
      {
        assert forall k :: 0 < k < i + 1 ==> zonesCaps[k] == zonesCaps[1..][k - 1];
      }
      forall c | c in zonesCaps && Lower(c) == name
        ensures c in zonesCaps[1..]
      {
      }
    }
  }

  /** After a command that was carried out, the printed line stores the same zone again, in its original
      case, even if other zones have the same name in lower case.  It does so if and only if the row it
      is entered on has a timezone, or the zone is the default one anyway. */
  lemma ReplayRestores(zonesCaps: seq<string>, before: Option<string>, argument: string, noForm: bool,
                       stored: string, later: Option<string>)
    requires Chosen(zonesCaps, before, argument, noForm) == Some(stored)
    ensures var line := "timezone set " + Lower(stored);
            Chosen(zonesCaps, later, line[13..], false) == Some(stored)
            <==> later.Some? || FirstZone(zonesCaps, "utc") == Some(stored)
  {
    assert ("timezone set " + Lower(stored))[13..] == Lower(stored);
    FirstZoneFound(zonesCaps, Requested(before, argument, noForm).value);
  }

  /** In particular, on the row it was printed from. */
  lemma ReplayOnOwnRow(zonesCaps: seq<string>, before: Option<string>, argument: string, noForm: bool, stored: string)
    requires Chosen(zonesCaps, before, argument, noForm) == Some(stored)
    ensures Chosen(zonesCaps, Some(stored), ("timezone set " + Lower(stored))[13..], false) == Some(stored)
  {
    ReplayRestores(zonesCaps, before, argument, noForm, stored, Some(stored));
  }

  /** A set is accepted exactly for arguments without capitals that are the name of a known zone but for
      case, and stores the first such zone. */
  lemma SetAccepts(zonesCaps: seq<string>, current: string, argument: string)
    ensures var z := Chosen(zonesCaps, Some(current), argument, false);
            && (z.Some? <==>
                  && (forall i :: 0 <= i < |argument| ==> !IsUpper(argument[i]))
                  && exists c :: c in zonesCaps && SameButCase(c, argument))
            && (z.Some? ==> exists i :: IsFirst(zonesCaps, argument, i) && z.value == zonesCaps[i])
  {
    FirstZoneFound(zonesCaps, argument);
    forall c
      ensures Lower(c) == argument <==>
              SameButCase(c, argument) && forall i :: 0 <= i < |argument| ==> !IsUpper(argument[i])
    {
      LowerIsIff(c, argument);
    }
  }

  /** The no form, on a row with a timezone, is accepted exactly for that timezone in lower case, and
      stores the first zone that is utc but for case. */
  lemma NoFormAccepts(zonesCaps: seq<string>, current: string, argument: string)
    ensures var z := Chosen(zonesCaps, Some(current), argument, true);
            && (z.Some? <==>
                  && SameButCase(current, argument) && (forall i :: 0 <= i < |argument| ==> !IsUpper(argument[i]))
                  && exists c :: c in zonesCaps && SameButCase(c, "utc"))
            && (z.Some? ==> exists i :: IsFirst(zonesCaps, "utc", i) && z.value == zonesCaps[i])
  {
    LowerIsIff(current, argument);
    FirstZoneFound(zonesCaps, "utc");
    forall c
      ensures Lower(c) == "utc" <==> SameButCase(c, "utc")
    {
      LowerIsIff(c, "utc");
    }
  }

  /** After a set, the no form is accepted for exactly one argument, the stored zone in lower case, and
      goes to the first zone that is utc in lower case.  That argument is the one given to the set if
      and only if the row had a timezone before, or the argument was the default. */
  lemma NoFormUndoes(zonesCaps: seq<string>, before: Option<string>, argument: string, stored: string, other: string)
    requires Chosen(zonesCaps, before, argument, false) == Some(stored)
    ensures Chosen(zonesCaps, Some(stored), other, true)
            == if other == Lower(stored) then FirstZone(zonesCaps, "utc") else None
    ensures argument == Lower(stored) <==> before.Some? || argument == "utc"
  {
    FirstZoneFound(zonesCaps, Requested(before, argument, false).value);
  }

  /** On a row without a timezone, every command goes to the default zone.  So a set does what it says if
      and only if the row has a timezone, or the default is what it asks for, or there is neither the
      zone it asks for nor the default. */
  lemma SetWithoutTimezone(zonesCaps: seq<string>, current: Option<string>, argument: string, noForm: bool)
    ensures current.None? ==> Chosen(zonesCaps, current, argument, noForm) == FirstZone(zonesCaps, "utc")
    ensures Chosen(zonesCaps, current, argument, false) == FirstZone(zonesCaps, argument)
            <==> || current.Some?
                 || argument == "utc"
                 || (forall c :: c in zonesCaps ==> Lower(c) != argument && Lower(c) != "utc")
  {
    FirstZoneFound(zonesCaps, argument);
    FirstZoneFound(zonesCaps, "utc");
  }

  // ----- what the commands store, and REST validation

  /** The dictionary of REST validation has not been built yet, or was built from this tree. */
  ghost predicate BuiltFrom(dictionary: Option<map<string, string>>, es: seq<Entry>) {
    dictionary.Some? ==> dictionary.value.Keys == RestNames(es)
  }

  /** Whatever a command stores passes REST validation, with or without a dictionary from before, if the
      tree the zones were read from holds no link to a directory. */
  lemma StoredZonesValidate(es: seq<Entry>, current: Option<string>, argument: string, noForm: bool,
                            stored: string, dictionary: Option<map<string, string>>)
    requires Plain(es) && DirLinks(POSIX_DIR, es) == []
    requires Chosen(ZoneNames(Leaves(POSIX_DIR, es, true)), current, argument, noForm) == Some(stored)
    requires BuiltFrom(dictionary, es)
    ensures Accepts(dictionary, es, stored)
  {
    CliNamesAreRestNamesAndDirLinks(es);
    FirstZoneFound(ZoneNames(Leaves(POSIX_DIR, es, true)), Requested(current, argument, noForm).value);
  }

  /** In any other tree, a stored zone is rejected if and only if it is the name of such a link. */
  lemma StoredZoneRejectedIff(es: seq<Entry>, current: Option<string>, argument: string, noForm: bool,
                              stored: string, dictionary: Option<map<string, string>>)
    requires Plain(es) && BasePathOnce(es)
    requires Chosen(ZoneNames(Leaves(POSIX_DIR, es, true)), current, argument, noForm) == Some(stored)
    requires BuiltFrom(dictionary, es)
    ensures !Accepts(dictionary, es, stored) <==> stored in SetOf(ZoneNames(DirLinks(POSIX_DIR, es)))
  {
    FirstZoneFound(ZoneNames(Leaves(POSIX_DIR, es, true)), Requested(current, argument, noForm).value);
    UnknownNames(es, stored);
  }
}
