# Verification model of ops-sysd

ops-sysd is the boot daemon of a switch. It reads the image manifest, the hardware descriptions and
the FRU EEPROM, fills the database on first boot, and holds user configuration back until every
hardware daemon has reported ready. This project is a Dafny model of the parts of it that carry real
state, with proofs of what they promise. `dafny verify dfyconfig.toml` checks all of it.

## How it is laid out

| file | what it models |
|---|---|
| `HwCheck.dfy`, `BootBarrier.dfy`, `MainLoop.dfy` | the readiness check; the boot barrier as a transition system of database versions, a replica, the main loop and the other clients; the main loop as a program that only goes through runs of that system |
| `Crc32.dfy`, `Fru.dfy`, `FruImages.dfy`, `FruRoundTrip.dfy`, `FruDamage.dfy`, `FruUnprotected.dfy`, `FruWire.dfy` | CRC-32 as in the sample code of section 8 of RFC 1952, the TLV decoder, an encoder, the round trip, what damage the checksum catches, what it does not, and the format in its own numbers |
| `PackageInfo.dfy` | the event machine that fills the Package_Info table in transactions of 2000 rows |
| `QosYaml.dfy`, `Qos.dfy` | the meaning of the YAML lists; the profile rows as mutable objects |
| `CStrings.dfy`, `ZoneTree.dfy`, `TimezoneCli.dfy` | strings in buffers, the two walks over the zoneinfo tree, and the timezone commands with their running-config line |
| `ManifestWalk.dfy`, `ManifestContents.dfy`, `ManifestOrder.dfy`, `SplitPorts.dfy`, `OsRelease.dfy`, `Dump.dfy` | the manifest walk, what a manifest says, and what the order of its hash maps decides, split-port links, the switch version, the bounded dump |
| `Wrappers.dfy` | the option type |

The C code changes state in place, so the model does too: classes with fields, arrays and loops, each
proved against a specification function, with the theorems stated about that function. The boot barrier
is a protocol between processes and is modelled as a state machine; `MainLoop.dfy` shows that the loop
and `sysd_run` implement it.

Assumptions about code that is not in the repository: the IDL lets a transaction read its own writes,
an insert returns a row, a committed change to an alerting column moves the sequence number, JSON
objects are gone over in some fixed but unknown order (the members of a modelled object are listed in
that order), and `strncmp` over the length of the first name is the prefix order.

## What the proofs found

- The boot barrier is safe for all runs if and only if no name of a hardware daemon that starts out
  unready is a prefix of the name of another hardware daemon. For every other manifest a run that opens
  the barrier early is constructed (`BootBarrier.NeverOpensEarlyIffPrefixFree`).
- The commit that opens the barrier is attempted once. If it fails, the barrier stays closed in every
  continuation (`BootBarrier.FailedDoneCommitNeverOpens`), and every manifest has such a run
  (`FailedRun`).
- The FRU checksum protects everything but the bytes that say how long things are and the type of the
  CRC TLV. For that type, and for a larger length of the CRC TLV, it is stated exactly which damage is
  accepted; a damaged total length, a damaged length of a last vendor extension and a damaged CRC length
  are each shown accepted (`FruUnprotected`).
- The timezones the CLI offers and those REST validation accepts differ by exactly the links to
  directories (`ZoneTree.NamesAgreeIffLinksShare`, `NamesAgreeIffNoDirLinks`).
- On a System row without a timezone, `timezone set` goes to the default whatever it is told. It does
  what it says if and only if the row has a timezone, the default is asked for, or neither zone exists
  (`TimezoneCli.SetWithoutTimezone`), and replaying a saved line depends on the same condition. "Without
  a timezone" is the branch the code guards with a test for a null string (src/cli/system_vty.c:477-479).
  Neither the schema nor the IDL is in the repository, so it is not settled here that the IDL can hand
  out a null string; sysd writes a timezone when it creates the row (src/sysd_ovsdb_if.c:813), and in
  Open vSwitch's IDL a string is never null, so on rows written by sysd the other case applies.
- Two results depend on the order of a hash map. Whether a daemon counts as a hardware daemon does so
  exactly if its `is_hw_handler` tags contradict each other. Whether the manifest is accepted does so
  exactly if, with all daemons being objects, some management interface object that the walk may meet
  first has a string whose name starts with "intf", and some such object has none or has another value
  under such a name; that can be one and the same object (`ManifestOrder.HandlerOrderFreeIffConsistent`,
  `AlwaysSucceedsIff`, `NeverSucceedsIff`, `SuccessDependsOnOrder`).
- The dump lists as many daemons, from the first, as there are hardware daemons; these are the hardware
  daemons only if those come first (`Dump.ListsHwDaemonsIffTheyComeFirst`).
- Split-port links are inverse to each other if and only if the port descriptions are consistent
  (`SplitPorts.RowsInverseIffConsistent`).

## Model

| member | source | states |
|---|---|---|
| BootBarrier.NeverOpensEarlyIffPrefixFree | src/sysd_ovsdb_if.c:858-998 | no reachable state has, in any database version, System.cur_hw = 1 with a manifest hardware daemon unready; true of exactly the manifests whose not yet ready hardware daemons' names are prefix-free |
| BootBarrier.NoLostWakeup | src/sysd.c:504-524 | whenever the main loop blocks and the replica has a System row, the barrier has been dealt with or a hardware daemon is unready in the replica, also when changes arrive inside a blocking commit |
| BootBarrier.RestsOnlyWhenOpen | src/sysd_ovsdb_if.c:962-993 | a loop at rest with everything delivered and all hardware daemons ready has opened the barrier, unless its one attempt failed, and only then |
| BootBarrier.FailedDoneCommitNeverOpens | src/sysd_ovsdb_if.c:843-852 | after a failed commit of System.cur_hw the flag is set all the same and no later version of any continuation is open |
| BootBarrier.SysdRunMeans | src/sysd_ovsdb_if.c:948-990 | without the lock, or for the recorded sequence number, sysd_run does nothing and leaves what it recorded alone; otherwise it configures exactly if there is no System row, and goes to open the barrier exactly if the flag is unset and the check passes |
| BootBarrier.CommitMeans | src/sysd_ovsdb_if.c:784-856 | a first commit leaves System.cur_hw 0 and every daemon's manifest value, the done commit 1 and nothing else changed, a package commit only more packages |
| BootBarrier.LookAtPackagesMeans | src/sysd_ovsdb_if.c:988-991 | the package table is filled exactly if the replica shows it empty |
| BootBarrier.PackagesFilledOnce | src/sysd_ovsdb_if.c:988-991 | over runs, once sysd has left packages in the table the table never changes again |
| BootBarrier.StepKeepsInv | src/sysd_ovsdb_if.c:941-998 | every step of sysd, the daemons, other writers and the server keeps the run invariant: one row per manifest daemon, growing cur_hw, no unnoticed readiness |
| BootBarrier.StepKeepsSafe | src/sysd_ovsdb_if.c:825-939 | with prefix-free names every step keeps the barrier closed until all hardware daemons are ready |
| BootBarrier.RunKeepsInv | src/sysd_ovsdb_if.c:941-998 | the invariant holds at the end of every run from an empty database |
| BootBarrier.EarlyRun | src/sysd_ovsdb_if.c:901-932 | for every pair of names that clash, a run that opens the barrier before the shorter-named daemon has reported |
| BootBarrier.FailedRun | src/sysd_ovsdb_if.c:843-852 | every manifest has a run that comes to rest with everything delivered, every hardware daemon ready and the barrier closed, its commit having failed |
| HwCheck.SetNumHwDaemons | src/sysd_util.c:420-432 | the count of hardware handlers, at most the number of daemons and zero exactly if there is none |
| HwCheck.CountHwMeans | src/sysd_util.c:420-432 | the count is the size of the set of positions with a hardware handler |
| HwCheck.FindRow | src/sysd_ovsdb_if.c:903-924 | the first row of a hardware daemon whose name extends the given one, or none exactly if there is none |
| HwCheck.ChkIfHwDaemonsDone | src/sysd_ovsdb_if.c:858-939 | goes on to open the barrier exactly if there are no hardware daemons, or some manifest daemon's first matching row exists and all such rows are ready |
| HwCheck.PassesMeans | src/sysd_ovsdb_if.c:894-938 | with hardware daemons the check passes exactly if a row is found for at least one, by name prefix, and all rows found have cur_hw above 0 |
| HwCheck.ReadyPasses | src/sysd_ovsdb_if.c:901-932 | once all hardware daemons have reported the check passes, in every iteration order |
| HwCheck.PassesReady | src/sysd_ovsdb_if.c:901-932 | with prefix-free names it passes only then |
| HwCheck.ClashPasses | src/sysd_ovsdb_if.c:911-912 | with a clash of names there are cur_hw values and an order in which it passes too early |
| HwCheck.CheckExactIffPrefixFree | src/sysd_ovsdb_if.c:901-938 | the check tells readiness exactly, for all values and orders, if and only if names are prefix-free |
| MainLoop.Sysd.constructor | src/sysd.c:250-256 | the program starts where runs of the transition system start |
| MainLoop.Sysd.CommitBlock | src/sysd_ovsdb_if.c:843-850 | a blocking commit, during which others write and the replica moves, is a sequence of steps of the transition system |
| MainLoop.Sysd.SetHwDone | src/sysd_ovsdb_if.c:825-856 | the flag is set after the commit, whatever its result |
| MainLoop.Sysd.Decide | src/sysd_ovsdb_if.c:949-984 | where sysd_run goes, exactly, by lock, sequence number, System row, flag and check, as a step of the transition system; without the lock nothing is recorded |
| MainLoop.Sysd.SysdRun | src/sysd_ovsdb_if.c:941-998 | one call of sysd_run, with any surroundings, extends the run by steps of the transition system; without the lock it leaves database and flags alone |
| MainLoop.Sysd.AddPackageInfoIfNone | src/sysd_ovsdb_if.c:988-991 | packages are committed exactly if the replica shows none |
| MainLoop.Sysd.MayBlock | src/sysd.c:509-523 | the loop blocks exactly on the recorded sequence number, with no readiness unnoticed |
| MainLoop.Sysd.Iterate | src/sysd.c:504-524 | one iteration of the main loop extends the run; it blocks exactly if the sequence number is the recorded one, and then no readiness is unnoticed; an open barrier means all are ready |
| MainLoop.Sysd.Loop | src/sysd.c:504-524 | the loop, for any number of iterations, only goes through runs, none of which opens the barrier early if names are prefix-free |
| Crc32.CrcStepIsShift | src/sysd_util.c:218-228 | the table-driven register update equals the bitwise shift of the register with the byte mixed in |
| Crc32.CrcStepInjective | src/sysd_util.c:218-228 | for a given byte, different registers have different successors |
| Crc32.CrcWordInjective | src/sysd_util.c:218-228 | from one register, different words of four bytes lead to different registers |
| Crc32.BurstDetected | src/sysd_util.c:218-228 | messages equal outside a window of four bytes have the same checksum exactly if they are equal |
| Crc32.ZlibCrc32Concat | src/sysd_util.c:218-228 | a checksum can be computed piece by piece, starting from that of nothing, as calc_crc does |
| Crc32.CheckValue | src/sysd_util.c:218-228 | the published check value of this CRC |
| Fru.FruEeprom.constructor | include/sysd_fru.h:58-87 | a fresh record is zeroed |
| Fru.FruEeprom.ReadFruEeprom | src/sysd_fru.c:194-259 | header, version and length checks, then the TLV loop; the record and the verdict are those of the specification, on every device content |
| Fru.FruEeprom.ProcessEeprom | src/sysd_fru.c:49-192 | the loop decodes TLV after TLV into the record until one is refused |
| Fru.FruEeprom.StoreTlv | src/sysd_fru.c:73-184 | the switch on the TLV type, with the CRC check over the total length less the CRC's own |
| Fru.FruEeprom.StoreString | src/sysd_fru.c:73-184 | each string type sets its own field and no other |
| FruWire.ReadsString | src/sysd_fru.c:73-161 | a device with one TLV of type 0x21-0x23, 0x27-0x29, 0x2b or 0x2d-0x2f, of any length, sets the one string that belongs to the number to the text up to its NUL |
| FruWire.ReadsFixed | src/sysd_fru.c:92-145 | one of type 0x24, 0x25, 0x26, 0x2a or 0x2c sets its field from the bytes at the value, whatever the TLV's length, or leaves buffer or field |
| FruWire.ReadsRest | src/sysd_fru.c:158-184 | 0xfd changes nothing, 0xfe is compared big-endian with the checksum of everything before it, every other type is refused |
| FruWire.ReadsHeader | src/sysd_fru.c:212-259 | a device without a header, of a newer version, or shorter than announced is refused |
| FruWire.CStrMeans | src/sysd_fru.c:75-77 | the text stored is the part before the first NUL |
| FruWire.FitsMeans | include/sysd_fru.h:31-53 | the types and lengths the encoder uses, as numbers |
| FruImages.WalkFits | src/sysd_fru.c:66-190 | TLVs with fitting lengths are all accepted and applied in order |
| FruImages.ImageLayout | include/sysd_fru.h:58-87 | an encoded image has header length, TLVs and CRC where the reader looks for them |
| FruImages.StoreFinalCrc | src/sysd_fru.c:163-176 | a final four-byte CRC TLV is accepted exactly if it holds the checksum of everything before its value |
| FruImages.WalkFramed | src/sysd_fru.c:49-192 | an image of fitting TLVs ending in a CRC TLV is accepted exactly if the CRC verifies |
| FruImages.ReadFramed | src/sysd_fru.c:194-259 | the same for a device, whatever follows the image |
| FruImages.BigEndian32RoundTrip | src/sysd_fru.c:163-176 | four bytes written big-endian are read back as the number |
| FruRoundTrip.ApplyField | src/sysd_fru.c:73-184 | applying a TLV sets the field of its type to its value and leaves every other field alone |
| FruRoundTrip.FieldsDetermine | include/sysd_fru.h:58-87 | a record is determined by its encoded fields |
| FruRoundTrip.ApplyFieldTlvs | src/sysd_fru.c:73-184 | the TLVs of a record, in any order, turn a zeroed record into it |
| FruRoundTrip.RoundTrip | src/sysd_fru.c:49-259 | encoding a record within the format's limits, in any TLV order, and reading it gives the record |
| FruDamage.CalcCrcDetectsBursts | src/sysd_util.c:218-228 | the checksum over bytes notices every change within four consecutive bytes |
| FruDamage.DamageBreaksCrc | src/sysd_fru.c:163-176 | a change within four bytes, on one side of the start of the CRC value, makes the CRC fail |
| FruDamage.AcceptedVerifies | src/sysd_fru.c:163-176 | an image with a final CRC TLV is accepted only if that CRC verifies, whatever its TLVs are |
| FruDamage.DamageNeverAccepted | src/sysd_fru.c:49-192 | damage that leaves the length bytes and the CRC TLV's type alone is never accepted |
| FruDamage.ImagesAreSealed | src/sysd_fru.c:163-176 | every encoded image ends in a CRC TLV that verifies |
| FruDamage.DamageRefused | src/sysd_fru.c:163-176 | damage to a sealed image outside its structural bytes makes the read fail |
| FruDamage.OneByteBreaksRead | src/sysd_fru.c:163-176 | for every checksum that notices changes within four bytes, changing one byte of a sealed image's content makes the read fail |
| FruDamage.OneByteRefused | src/sysd_fru.c:163-176 | with the real CRC, changing any one byte other than a TLV type, a TLV length or the total length makes the read fail |
| FruUnprotected.CrcTypeAcceptedIff | src/sysd_fru.c:73-184 | with only the type of its CRC TLV changed, a sealed image is accepted if and only if the new type is a string, the MAC count, the date, the device version or a vendor extension |
| FruUnprotected.CrcTypeUnprotected | src/sysd_fru.c:158-180 | as a vendor extension it leaves the record as it was, whatever the CRC value |
| FruUnprotected.CrcLengthAcceptedIff | src/sysd_fru.c:163-176 | with only the CRC TLV's own length made larger, a sealed image is accepted if and only if the shorter prefix covered then has the same checksum |
| FruUnprotected.CrcLengthUnprotected | src/sysd_fru.c:163-176 | with the real CRC there is a sealed image that is accepted with that byte damaged |
| FruUnprotected.TotalLengthUnprotected | src/sysd_fru.c:194-259 | with the total length shortened by the CRC TLV an image is accepted without a check |
| FruUnprotected.TlvLengthUnprotected | src/sysd_fru.c:66-190 | a last vendor extension lengthened by the CRC TLV swallows it, and the image is accepted |
| PackageInfo.CheckKey | src/sysd_ovsdb_if.c:431-443 | a scan that skips the first entry tells the five keys from values |
| PackageInfo.KeyOfMeans | src/sysd_ovsdb_if.c:73-80 | exactly PKG, PV, SRCREV, SRC_URL and TYPE are keys, each its own |
| PackageInfo.FeedAbortsIff | src/sysd_ovsdb_if.c:499-550 | exactly which value makes the daemon abort: a name when a transaction is open or missing out of turn, a column without a row |
| PackageInfo.ScalarsMeans | src/sysd_ovsdb_if.c:486-490 | scalars count in order up to the end of the stream, other events do not |
| PackageInfo.HandleValue | src/sysd_ovsdb_if.c:495-572 | the switch on the current key: open a transaction every 2000 records, insert, set a column, commit |
| PackageInfo.AddPackageInfo | src/sysd_ovsdb_if.c:450-594 | the event loop hands to the database what the event machine does for the scalars up to the end |
| PackageInfo.FeedFields | src/sysd_ovsdb_if.c:513-548 | columns go to the current row; its version is the last PV or SRCREV other than INVALID |
| PackageInfo.FeedRecords | src/sysd_ovsdb_if.c:486-588 | after n packages: n rows in order, all full batches committed, the rest in the open transaction |
| PackageInfo.LoadsWhatItHasRead | src/sysd_ovsdb_if.c:486-588 | wherever events end, all writes were inside a transaction, and exactly the complete packages and the named part of the next are committed |
| PackageInfo.LoadsWholeStream | src/sysd_ovsdb_if.c:486-588 | a whole stream: the rows in order, ceil(n/2000) commits, all but the last of exactly 2000 rows |
| PackageInfo.BatchedAt | src/sysd_ovsdb_if.c:499-550 | row i is in batch i / 2000 at place i % 2000 |
| PackageInfo.FailureKeepsWhatWasRead | src/sysd_ovsdb_if.c:486-588 | a parse failure at any event keeps every package read to its end before it, and at most one more row, begun by the next package |
| QosYaml.QueuesGroupBy | src/qos_init.c:178-241 | a queue profile is a group-by of the list: exactly the queues mentioned, exactly their local priorities once each, the last description |
| QosYaml.RebuildQueues | src/qos_init.c:178-241 | building a queue profile that is already built changes nothing |
| QosYaml.SchedulesTakeLast | src/qos_init.c:336-406 | each queue takes its last entry; a weight is absent exactly from strict queues |
| Qos.Profile.GetEntryRow | src/qos_init.c:80-92 | the row mapped to a queue, or none exactly if the queue is no key |
| Qos.Profile.InsertQueueRow | src/qos_init.c:98-128 | both lists copied and a fresh row appended; keys stay unique and rows distinct |
| Qos.Profile.FindOrInsert | src/qos_init.c:182-199 | the row mapped to the queue, which is the old one or a fresh one at the end |
| Qos.Profile.EntryRow | src/qos_init.c:182-199 | the same with the contents: all other rows untouched |
| Qos.HasLocalPriority | src/qos_init.c:46-58 | membership in the row's local priorities |
| Qos.AddLocalPriority | src/qos_init.c:152-172 | a local priority is appended unless it is there |
| Qos.QueueRowCommand | src/qos_init.c:178-211 | one YAML entry is one update of the queue map the profile stands for |
| Qos.ScheduleRowCommand | src/qos_init.c:336-372 | one YAML entry replaces the schedule of its queue |
| Qos.Table.GetProfileRow | src/qos_init.c:63-74 | the profile of a name, or none exactly if there is none |
| Qos.Table.ProfileCommand | src/qos_init.c:133-147 | the profile of a name, found or appended empty; names stay unique and rows unshared |
| Qos.CreateQueueProfile | src/qos_init.c:217-241 | the profile's contents are the list folded over what it held; other profiles and rows are untouched |
| Qos.CreateScheduleProfile | src/qos_init.c:378-406 | the profile's contents depend only on the list; its rows are new |
| Qos.MarkFactoryProfile | src/qos_init.c:688-701 | marking one profile and its entries leaves contents and the other profile's marks alone |
| Qos.InitQueueProfile | src/qos_init.c:658-702 | default and factory-default profile hold the same in disjoint rows; exactly the latter and its rows are marked hw_default |
| Qos.InitScheduleProfile | src/qos_init.c:707-751 | the same for schedule profiles |
| CStrings.StrStr | src/cli/system_vty.c:680-684 | the first occurrence at or after a place, or none exactly if there is none |
| CStrings.Move | src/cli/system_vty.c:680-684 | memmove, character by character: everything from one place on is where the gap began, the rest as it was |
| CStrings.MoveDown | src/cli/system_vty.c:680-684 | the tail of the string moves down over the gap, its NUL included |
| CStrings.RemoveHereInPlace | src/cli/system_vty.c:680-684 | one round of the loop removes the occurrence found and keeps the rest to be treated |
| CStrings.RemoveBasePath | src/cli/system_vty.c:680-684 | the in-place search-and-shift loop equals left-to-right, non-overlapping replace-all by nothing, and terminates |
| CStrings.RemoveAllFirst | src/cli/system_vty.c:680-684 | replace-all keeps the text before the first occurrence and goes on behind it |
| CStrings.RemoveAllKeepsIff | src/cli/system_vty.c:680-684 | a text stays as it is if and only if the base path does not occur in it |
| CStrings.RemoveAllMeans | opsplugins/system.py:33-36 | replace-all by nothing: without an occurrence the text stays; otherwise the first occurrence goes and what is behind it is treated on its own |
| CStrings.LowerInPlace | src/cli/system_vty.c:655-670 | the buffer is lower-cased up to its NUL: character codes 65 to 90 move up by 32, others stay |
| CStrings.LowerMeans | src/cli/system_vty.c:664-666 | the same for texts: no capitals are left |
| CStrings.LowerAgreesIff | src/cli/system_vty.c:664-666 | two texts have the same lower case if and only if they are the same but for case |
| ZoneTree.ZoneDb.PopulateZoneDb | src/cli/system_vty.c:644-649 | both tables grow by one, staying each other's lower case |
| ZoneTree.ZoneDb.AddInfoToCmdOptions | src/cli/system_vty.c:655-670 | the name is stored as it is and in lower case |
| ZoneTree.ZoneDb.FindPosixTimezones | src/cli/system_vty.c:691-719 | the recursive walk appends the zone names of all leaves below the directory, in reading order |
| ZoneTree.LeavesMean | src/cli/system_vty.c:691-719 | the walk reaches a path if and only if it is that of a file or link at some place in the tree |
| ZoneTree.LeavesOnce | src/cli/system_vty.c:691-719 | the walk reaches no path twice |
| ZoneTree.ZonesStoredOnce | src/cli/system_vty.c:691-719 | the CLI's table holds no zone name twice |
| ZoneTree.ZoneDb.VisitEntry | src/cli/system_vty.c:701-717 | directories are descended into, dots skipped, everything else stored |
| ZoneTree.Validator.BuildTimezoneDb | opsplugins/system.py:28-36 | the dictionary's keys become the relative names of all files os.walk reports |
| ZoneTree.Validator.CheckValidTimezone | opsplugins/system.py:39-47 | membership in the dictionary, which is built on first use and then kept |
| ZoneTree.Validator.ValidateModification | opsplugins/system.py:50-59 | a row with a timezone is rejected, by that name, exactly if the name is not valid |
| ZoneTree.OsWalkFinds | opsplugins/system.py:31-36 | os.walk and the recursive walk reach the same files |
| ZoneTree.LeavesSplit | src/cli/system_vty.c:691-719 | the CLI's walk reaches the files and the links to directories |
| ZoneTree.ZoneNameIsRelativeIff | src/cli/system_vty.c:680-684 | a zone name is the path below the base path if and only if the base path does not occur in that path again |
| ZoneTree.ZoneNameIsRelative | src/cli/system_vty.c:680-684 | so it is in trees that do not contain the base path again |
| ZoneTree.NamesAgreeIffLinksShare | opsplugins/system.py:28-47 | in any tree, both name sets are equal if and only if every link to a directory shares its name with a file |
| ZoneTree.CliNamesAreRestNamesAndDirLinks | src/cli/system_vty.c:691-719 | the CLI's names are REST's names and those of links to directories |
| ZoneTree.DirLinkNameIsUnknown | opsplugins/system.py:39-47 | REST validation rejects the name of every link to a directory |
| ZoneTree.NamesAgreeIffNoDirLinks | opsplugins/system.py:28-47 | both name sets are equal if and only if there is no link to a directory |
| TimezoneCli.TranslateCmdToFilepath | src/cli/system_vty.c:437-447 | the index of the first zone with the lower-case name, no earlier one having it, or -1 exactly if there is none |
| TimezoneCli.CliSetTimezone | src/cli/system_vty.c:454-514 | what is stored and returned for set and no form, missing row, failed start and failed commit; a rejected command stores nothing |
| TimezoneCli.RunningConfig | src/cli/vtysh_ovsdb_system_context.c:39-67 | the printed line is "timezone set " with the zone in lower case, without capitals |
| TimezoneCli.ReplayRestores | src/cli/vtysh_ovsdb_system_context.c:50-64 | the printed line, entered again on any row, stores the same original-case zone, also if zones collide in lower case, if and only if that row has a timezone or the zone is the default |
| TimezoneCli.ReplayOnOwnRow | src/cli/vtysh_ovsdb_system_context.c:50-64 | in particular on the row it was printed from |
| TimezoneCli.SetAccepts | src/cli/system_vty.c:454-514 | a set is accepted exactly for arguments without capitals that are a known zone but for case, and stores the first such zone |
| TimezoneCli.NoFormAccepts | src/cli/system_vty.c:482-494 | the no form is accepted exactly for the stored zone but for case, and stores the first zone that is utc but for case |
| TimezoneCli.NoFormUndoes | src/cli/system_vty.c:482-494 | after a set, the no form of exactly the stored zone is accepted and goes to the first zone that is utc in lower case; that is the argument of the set if and only if the row had a timezone or utc was asked for |
| TimezoneCli.SetWithoutTimezone | src/cli/system_vty.c:478-497 | without a stored timezone every form goes to the default; a set does what it says if and only if there is a timezone, the default is asked for, or neither zone exists |
| TimezoneCli.StoredZonesValidate | opsplugins/system.py:39-47 | what the CLI stores is accepted by REST validation, cached or freshly built, if the tree has no link to a directory |
| TimezoneCli.StoredZoneRejectedIff | opsplugins/system.py:39-47 | in any other tree a stored zone is rejected if and only if it is the name of such a link |
| ManifestWalk.Walker.constructor | src/sysd_util.c:418-460 | nothing is recorded at first |
| ManifestWalk.Walker.GetHwHandler | src/sysd_util.c:230-253 | the first handler tag met decides |
| ManifestWalk.Walker.ProcessDaemons | src/sysd_util.c:255-297 | one entry per member, in the order of the map, until one is no object |
| ManifestWalk.Walker.ProcessMgmtIntf | src/sysd_util.c:300-340 | the first "intf" names the interface if it is a string; otherwise a name has to be known from before |
| ManifestWalk.Walker.ProcessJson | src/sysd_util.c:343-418 | the recursion over objects and arrays records exactly what the specified walk does |
| ManifestWalk.Walker.ReadManifestFile | src/sysd_util.c:434-460 | succeeds exactly if every listed daemon is an object and the first management interface object names one; then all listed daemons are recorded and the handlers counted, at most as many as daemons |
| ManifestWalk.WalkMeans | src/sysd_util.c:343-418 | success and record of the walk over any tree, in terms of the daemons listed and the interface objects met |
| ManifestContents.EntryMeans | src/sysd_util.c:268-292 | the record of a daemon: its name; a hardware handler exactly if its first "is_hw_handler" member is true; cur_hw 1 exactly if its name starts with "ops-sysd", else 0 |
| ManifestContents.ListedCount | src/sysd_util.c:255-418 | every daemon is recorded as often as "daemons" objects reached list it, with just this record |
| ManifestContents.ListedMeans | src/sysd_util.c:255-418 | a daemon is recorded if and only if a reached "daemons" object lists it |
| ManifestContents.AllDaemonsMean | src/sysd_util.c:343-418 | a condition on all listed daemons is one on the members of all reached "daemons" objects |
| ManifestContents.IntfsMean | src/sysd_util.c:343-418 | the interface objects met are the "mgmt_intf" objects reached |
| ManifestContents.NameInMeans | src/sysd_util.c:300-340 | an object names an interface exactly if its first "intf" member is a string, which is the name |
| ManifestContents.LastNamedMeans | src/sysd_util.c:300-340 | the last object that names an interface decides |
| ManifestContents.StartsReady | src/sysd_util.c:275-285 | of the daemons of a manifest, exactly those named "ops-sysd..." start out ready |
| ManifestContents.PrefixFreeManifest | src/sysd_ovsdb_if.c:911-912 | so the barrier is safe for a manifest if and only if no other hardware daemon's name is a prefix of another's |
| ManifestOrder.HandlerIgnoresOrder | src/sysd_util.c:230-253 | handler tags that agree say the same in every order |
| ManifestOrder.ListedIgnoresOrder | src/sysd_util.c:343-418 | the multiset of recorded daemons is the same for every order of every object, if no daemon's tags disagree |
| ManifestOrder.HandlerOrderFreeIffConsistent | src/sysd_util.c:230-253 | a daemon's handler flag is independent of the order if and only if its tags agree |
| ManifestOrder.FirstMayBeFirst | src/sysd_util.c:343-418 | the management interface object met first in a reordering is one of those that may be first: any member of an object, the first element of an array that holds one |
| ManifestOrder.MakeFirst | src/sysd_util.c:343-418 | conversely, each of those is met first in some reordering, in any order of its own members |
| ManifestOrder.AlwaysSucceedsIff | src/sysd_util.c:300-418 | the walk succeeds in every order if and only if every listed daemon is an object and every interface object that may be first has an "intf" and only strings for them |
| ManifestOrder.NeverSucceedsIff | src/sysd_util.c:300-418 | it succeeds in no order if and only if some daemon is no object, or there are interface objects and none that may be first has a string "intf" |
| ManifestOrder.SuccessDependsOnOrder | src/sysd_util.c:300-418 | the order decides if and only if daemons are objects, some interface object that may be first can name an interface, and some such object can fail to |
| SplitPorts.SetSplittablePortInfo | src/sysd_ovsdb_if.c:192-243 | a row gets the parent it names if that port is involved in splitting, and the children found; what is not described or not found stays |
| SplitPorts.BuildIndex | src/sysd_ovsdb_if.c:199-208 | the index finds exactly the ports involved in splitting |
| SplitPorts.FindSubports | src/sysd_ovsdb_if.c:225-240 | the rows of the subports found, in order, the others skipped |
| SplitPorts.ResolveMeans | src/sysd_ovsdb_if.c:225-240 | children come name by name: the one port of the name that is involved in splitting, or nothing |
| SplitPorts.ParentsMean | src/sysd_ovsdb_if.c:210-223 | the parent is the port of that name, if it is involved in splitting |
| SplitPorts.LinksInverseIffConsistent | src/sysd_ovsdb_if.c:192-243 | resolved parents and children are inverse relations if and only if descriptions are consistent |
| SplitPorts.RowsInverseIffConsistent | src/sysd_ovsdb_if.c:192-243 | the same for the links of the rows in the database |
| SplitPorts.IndexSuffices | src/sysd_ovsdb_if.c:199-208 | for consistent descriptions the reduced index answers as the full port list would |
| OsRelease.SplitLine | src/sysd_ovsdb_if.c:626-641 | name and trimmed value of a line, or nothing without an equals sign |
| OsRelease.UpdateSwInfo | src/sysd_ovsdb_if.c:600-686 | the version is written exactly if both last values are non-empty, and is the full string cut to 79 characters |
| OsRelease.NameValueMeans | src/sysd_ovsdb_if.c:626-641 | name and value are what is before the first '=' and, without white space at the end, behind it; a line without '=' says nothing |
| OsRelease.SpacesAre | src/sysd_ovsdb_if.c:636-641 | white space is codes 32 and 9 to 13 |
| OsRelease.SwitchVersionMeans | src/sysd_ovsdb_if.c:648-684 | with the last VERSION_ID and BUILD_ID both non-empty the column is "version (Build: build)" cut to 79 characters, otherwise it is not written |
| OsRelease.TrimRightMeaning | src/sysd_ovsdb_if.c:636-641 | trimming cuts at the one place with only white space behind it and none before it |
| OsRelease.LastValueMeaning | src/sysd_ovsdb_if.c:626-659 | the last line with a name decides |
| OsRelease.CutTwice | src/sysd_ovsdb_if.c:648-680 | cutting both parts and then the result equals cutting the result once |
| Dump.Append | src/sysd_ovsdb_if.c:61 | appending with the room left keeps the buffer terminated and the beginning of the report |
| Dump.SysdDump | src/sysd_ovsdb_if.c:1007-1036 | the buffer holds the first buflen - 1 characters of the unlimited report |
| Dump.ReportMeans | src/sysd_ovsdb_if.c:1016-1035 | the report: both headers, the column names, the lines and the interface, as texts |
| Dump.LinesMean | src/sysd_ovsdb_if.c:1018-1029 | a daemon's line: name, 1 or 0, cur_hw, with their tabs |
| Dump.DecimalMeans | src/sysd_ovsdb_if.c:1021-1026 | numbers are written in decimal digits without leading zeros, negative ones after a minus |
| Dump.ListsHwDaemonsIffTheyComeFirst | src/sysd_ovsdb_if.c:1018-1029 | the report lists exactly the hardware daemons if and only if they come first; the indices stay within the daemons |

## Left out

- Qos.InitQueueProfile: stated for a profile table that is empty before, as when the System row is created; `Qos.CreateQueueProfile` covers any table. Without QoS information the C function returns at once, which is not modelled.
- Qos.InitScheduleProfile: stated for a profile table that is empty before, for the same reason; `Qos.CreateScheduleProfile` covers any table.
- Fru.FruEeprom.ReadFruEeprom: the branch that takes the record from a YAML file is not modelled; its failure test compares a bool with zero and never fires.
- PackageInfo.AddPackageInfo: an insert that returns no row is not modelled, since the IDL's inserts do not; commit results are only logged and do not matter.
- MainLoop.Sysd.SysdRun: what a transaction writes beyond System.cur_hw, the Daemon rows and the number of packages is not part of the state; a schedule that never answers a commit counts as a failed commit.
- BootBarrier.NoLostWakeup: sequence numbers do not wrap at 32 bits.
- ManifestWalk.Walker.ReadManifestFile: failed allocations are not modelled, and neither is the size of the management interface's buffer.
- SplitPorts.SetSplittablePortInfo: names are unique and a port has at most four subports, as its array demands.
- ZoneTree.ZoneDb.FindPosixTimezones: at most 900 zones with paths that fit the buffers; file systems that do not report entry types and directories that cannot be opened are not modelled.
- ZoneTree.NamesAgreeIffNoDirLinks: for trees that do not contain the base path again below itself, as do `ZoneTree.DirLinkNameIsUnknown`, `ZoneTree.ZonesStoredOnce` and `TimezoneCli.StoredZoneRejectedIff`; in other trees two paths can get one name, and `ZoneTree.NamesAgreeIffLinksShare` is the condition for every tree.
- ZoneTree.Validator.ValidateModification: a row with an empty timezone column, on which the indexing raises, is not modelled.
- OsRelease.UpdateSwInfo: the software name column is not modelled.
- The cos and dscp maps and QoS trust: straight-line writes of columns.
- Interface, subsystem, MAC pool, ACL, bridge and VRF set-up: straight-line writes of columns.
- The `/etc/localtime` link, host names, logging, the status LED and option parsing: effects on the operating system.
- CLI command and help strings, and `show` output: user interface.
- Reading files, YAML and JSON syntax: parsers that are libraries; their output is the model's input.
