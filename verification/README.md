# gumd account database: a verified model

gumd keeps the user and group accounts of a Linux system in four files: passwd, shadow, group and
gshadow. This project models the engine that rewrites them and proves what it keeps.

- **Files** (`AtomicFile`, `Entries`). One replacement of a file as steps over a directory of names and
  inodes, in which every system call may fail and the process may stop anywhere; and the loops that
  stream the old file into the new one.
- **Packed strings and names** (`StringUtils`, `Validate`, `Gecos`, `Lines`). Splitting and joining, string vectors
  in fixed buffers, the pattern for names and the characters of strings, the five-field GECOS record, and why
  accepted texts fit a line.
- **Operations** (`IdAllocation`, `GroupSpec`, `UserSpec`). What each user and group operation does, as
  functions of the database, the request object and the fate of every call. `Edits`, `ShadowLock` and `Loading`
  say what their parts do in terms of the records alone: which entry an edit acts on, what locking writes, what
  the lookups find, what the setters take and what a loaded object holds.
- **Objects** (`Locking`, `Store`, `DaemonGroup`, `DaemonUser`). The lock, the store and the request objects as
  classes whose methods are proved equal to those functions, with the lock restored on every exit.
- **Theorems** (`Integrity`, `Ordering`, `Naming`, `GroupAgreement`, `UserConsistency`, `GroupTheorems`, `UserTheorems`,
  `UserAddTheorems`, `UserUpdateTheorems`, `PartialWrites`, `PartialGroupWrites`, `RoundTrips`, `Runs`, `Clients`,
  `Cases`). What the operations keep, what each achieves and when it succeeds, what a failure leaves, what undoes what, what holds
  over every run, and concrete inputs on which a condition fails.
- **Keep-alive** (`Disposable`, `UserService`). The counter, timer and peer list that decide how long the
  service lives.

`Env` stands for what an operation cannot decide: the fate of each file replacement and system call, the
encrypted secret, the comparison of secrets, the MD5 digest of the nick name, the ageing fields (time and
settings), the effective ids, session termination, the home directory and the icon.

Referential integrity, unique ids and their order, unique names, the lock discipline and the atomicity of a
replacement hold whichever calls fail and whatever the objects are like. Agreement between files does not: the
operations write one file after the other and do not roll back. `Runs.RunUsers` says exactly which requests, under
any failures, part passwd and shadow, and `Runs.RunGroups` which part group and gshadow; neither asks anything of the
other pair of files. What an operation achieves is proved for operations whose file replacements succeed
(`WritesSucceed`).

`UsersAgree` says that passwd and shadow hold the same users, each once. Nothing more is asked of the files by the
theorems on user updates, user deletes and loading. `GroupsOk` says that names and gids are unique in the group file
and that gshadow, if there is one, agrees with it; the exact group theorems and the exact add need that too, with or
without gshadow. `Consistent` is both. `UserReqOk` and `GroupReqOk` say that a request object holds only values that
the setters accept, and, where there is a gshadow, member lists that agree; `Runs.SetUserOk`, `Runs.LoadUserOk` and
`Runs.StepOk` show that fresh objects, setters of any value, loads and operations give only such objects. An object
is misnamed (`MisnamedUser`, `MisnamedGroup`) when it names one entry while its shadow part carries another name.

## What the code does that its documentation does not say

- Locking a shadow entry that is locked already, or unlocking one that is not, writes an empty secret
  (`UserTheorems.LockThenUnlock`, `UserTheorems.LockedSecretIsLost`, `UserTheorems.AbandonedDelete`).
- The removal of a user's memberships returns TRUE although the group file could not be rewritten, if
  gshadow could (`UserTheorems.MembershipSuccessIsPartial`).
- "Only secret can be updated" in a group; but a group update writes the member lists that the object holds,
  so a stale object takes members out (`GroupTheorems.UpdateKeepsMembers`). In the same way a user update
  through a stale object brings an old secret back (`UserUpdateTheorems.UpdateKeepsSecret`,
  `UserUpdateTheorems.StaleUpdateRevertsSecret`).
- A user whose GECOS string has fewer than five fields, such as `Ann`, cannot be updated at all if it or the object
  has one acceptable field: the fields filled in look like a change of the user type, even when only the shell was
  to change (`UserUpdateTheorems.UserUpdateSucceeds`, `UserUpdateTheorems.ShortLineRefused`; a concrete case is
  `UserUpdateTheorems.LoadedUserRefused`).
- A password field in passwd that is neither `x` nor refused is loaded as if it were a secret asked for: an update
  through an object that was only loaded encrypts it and replaces the user's secret by it, unless the comparison says
  that it is the same. So is the GECOS string rewritten that loading normalises. In a line as an add writes it there
  is nothing to update (`UserUpdateTheorems.UnchangedUpdate`, `UserUpdateTheorems.NothingToUpdate`).
- An update through an object that holds no shell writes an empty one (`UserUpdateTheorems.UserUpdateExact`,
  `UserUpdateTheorems.UpdateEmptiesShell`).
- The real name is meant to default to the user name; a request that has a type already has an empty real
  name field, so it never does (`UserAddTheorems.RealNameStays`).
- A failed add is not undone: the user stays when the home directory cannot be made, and the new primary
  group stays when the secret cannot be encrypted (`UserAddTheorems.UserAddExact`, `Cases.UserStaysWithoutHome`).
- A user delete that is refused because of the primary group has already taken the user's lines out of passwd
  and shadow, and leaves the memberships (`UserTheorems.UserDeleteLeaves`, `UserTheorems.DeleteTouches`; a
  concrete case is `UserTheorems.RefusedDeleteRemovesLines`).
- A group that gshadow lacks cannot be deleted: its line goes from the group file and the delete fails all the same.
  A user delete stops there, with the user gone and the memberships left (`UserTheorems.GroupDeleteExact`,
  `UserTheorems.UserDeleteLeaves`; a concrete case is `Cases.DeleteStopsAtGshadow`).
- An operation on members whose replacement of gshadow fails returns FALSE with the new list in the group file; adding
  the user to further groups does not mend it (`PartialGroupWrites.AddMemberAgrees`,
  `PartialGroupWrites.AddToGroupsAgrees`, `Cases.MemberInOneFile`).
- An object that is renamed after it was loaded, onto a user who has its uid by now, takes that user's shadow entry
  away when it is updated; the same goes for groups (`UserUpdateTheorems.UserUpdateConsistent`,
  `GroupAgreement.GroupUpdateAgrees`, `UserUpdateTheorems.RenamedUpdateLosesUser`, `Cases.RenamedGroupLosesShadow`).
  If the other name is still in the file it is there twice then (`Naming.UserUpdateNames`,
  `Naming.GroupUpdateNames`, `Cases.RenamedUpdateDoublesName`).
- Adding or deleting a member empties a group's password field that the secret validator refuses, or puts the
  object's own there (`GroupTheorems.AddThenDeleteMember`, `RoundTrips.AddThenDelete`, `Cases.MembershipEmptiesPasswd`).
- A delete that has rewritten passwd and then cannot rewrite shadow leaves an entry in shadow that belongs to nobody
  (`PartialWrites.DeleteStopsAtShadow`).
- An object that outlives its timer stays with nothing pending (`Disposable.FireSound`,
  `Disposable.OutlivesItsTimer`).
- Setting a second timeout while nothing keeps the object leaks the first source
  (`Disposable.SetTimeoutSound`, `Disposable.TwoTimeouts`).
- The loss of a bus name while a request is in flight and no peer is listed releases the request's hold
  (`UserService.NameLostBalanced`, `UserService.HoldLostInFlight`). With handlers that run to their end this
  cannot happen (`UserService.RunSteady`).
- The duplicate file stays if it cannot be unlinked, or if an old one was there and could not be opened. When the
  rename fails the backup is unlinked, although the previous one was given up for it, so that there is none unless
  that unlink fails too (`AtomicFile.DbFile.Withdraw`, `AtomicFile.DbFile.CloseDbFiles`).
- The id search wraps at 2^32 - 1: a range that ends there can yield an id below it
  (`IdAllocation.FreeIdChosen`, `IdAllocation.IdBelowRange`), and if every id is taken the search never ends
  (`IdAllocation.SearchGoesOn`, `IdAllocation.NoUidLeft`).
- A failed ulckpwdf leaves the system's lock and the privileges with the process at depth zero; a failed
  lckpwdf leaves the privileges (`Locking.CallKeepsHeld`, `Locking.CallKeepsPrivileged`).
- The message for a bad name says "less than UT_NAMESIZE"; a name of exactly that length is accepted
  (`Validate.LongestName`).
- A user type of several bits reads back as its highest bit (`Gecos.TypeGetterReturnsType`).
- Loading a GECOS string without one acceptable field leaves NULL (`Gecos.LoadRec`); loading by uid never finds
  a user whose uid is 2^32 - 1 (`UserTheorems.AddThenLoad`).

## Model

| member | source | states |
|---|---|---|
| StringUtils.SplitOfJoin | src/common/gum-string-utils.c:147-173 | splitting undoes joining exactly for comma-free fields other than the single empty one |
| StringUtils.JoinOfSplit | src/common/gum-string-utils.c:147-173 | joining undoes splitting for every string |
| StringUtils.GetStringOfJoin | src/common/gum-string-utils.c:147-173 | a field of a packed string is the one that was packed, at every index, and there is none beyond the last or in NULL |
| StringUtils.SearchStringv | src/common/gum-string-utils.c:116-135 | TRUE exactly when both arguments are there and the vector holds the string |
| StringUtils.InsertString | src/common/gum-string-utils.c:182-223 | the packed string of `total` fields with the new one in its place, missing fields empty; NULL for no string or a bad index |
| StringUtils.DeleteString | src/common/gum-string-utils.c:235-259 | NULL exactly when the string is absent; else a buffer of as many slots as the source has strings, never written outside, holding the other strings in order |
| StringUtils.AppendString | src/common/gum-string-utils.c:271-294 | a fresh buffer with two more slots than strings, holding the source and the new string |
| StringUtils.DeleteUndoesAppend | src/common/gum-string-utils.c:235-294 | deleting undoes appending exactly when the string was absent |
| Validate.NamePatternIsScan | include/gum/common/gum-validate.h:33 | the language of the regular expression equals a first/middle/last scan |
| Validate.NameByCharacters | src/common/gum-validate.c:66-104 | a name is accepted exactly if it has 1 to 32 characters, the first of A-Z, a-z and _, the others of these and 0-9, dot and hyphen, or at the very end a dollar sign |
| Validate.NamesAtTheEdge | src/common/gum-validate.c:66-104 | concrete names that are accepted and that are not |
| Validate.LongestName | src/common/gum-validate.c:79-84 | of the names that match, those of at most UT_NAMESIZE characters are accepted, that length included |
| Validate.ValidNamePlain | src/common/gum-validate.c:66-104 | an accepted name is not empty and holds neither comma nor colon |
| Validate.ValidNameIsDbString | src/common/gum-validate.c:66-251 | an accepted name is also an accepted database string and secret |
| Validate.StringsByCharacters | src/common/gum-validate.c:178-251 | strings and secrets are accepted exactly if no character is below 0x20, 0x7f or a colon, nor in a string a comma |
| Validate.PrintableIsAccepted | src/common/gum-validate.c:178-251 | printable ASCII without colons is an accepted secret, and an accepted string exactly without commas |
| Validate.OneCharacterRefuses | src/common/gum-validate.c:178-251 | one control character or colon anywhere refuses either, one comma the string; any other character makes no difference |
| Validate.OrdinaryTexts | src/common/gum-validate.c:178-251 | concrete texts that are accepted and that are not |
| Lines.LineSplitsBack | src/daemon/core/gumd-daemon-user.c:60-61 | accepted texts joined by colons into a line come apart into the same fields, and the line holds no end of line |
| Lines.TextsFitALine | src/daemon/core/gumd-daemon-user.c:60-66 | accepted names and strings and canonical GECOS strings are such texts |
| Validate.UserListSplitsBack | src/daemon/core/gumd-daemon-group.c:238-246 | the comma-joined user list splits back to the exact members, for none and for one too |
| Validate.GeneratedNameAccepted | src/common/gum-validate.c:112-140 | a name is generated exactly for a string that is not empty: the 32 digits of the digest, with U in the place of a first one that is no letter |
| Gecos.TypeReadsBack | src/common/gum-user-types.c:55-120 | the text of a type reads back as its highest bit, and so as that type exactly for single bits |
| Gecos.TypeTexts | src/common/gum-user-types.c:46-120 | the numbers and the texts of the five types, one by one, and that no other number and no other text is a type |
| Gecos.SetTextRec | src/daemon/core/gumd-daemon-user.c:266-340 | an accepted text replaces its own field of the record and no other; a refused one changes nothing; a canonical string stays one |
| Gecos.SetTypeRec | src/daemon/core/gumd-daemon-user.c:206-224 | a type in range becomes the text of the type field and touches no other; any other value changes nothing |
| Gecos.SettersActOnARecord | src/daemon/core/gumd-daemon-user.c:206-340 | over any run of setter calls from NULL or any string, each field holds the last value accepted for it, or what it held before |
| Gecos.TypeGetterReturnsType | src/daemon/core/gumd-daemon-user.c:156-224 | the getter returns the highest bit of the type just set, and so the type itself exactly for single bits |
| Gecos.LoadRec | src/daemon/core/gumd-daemon-user.c:1485-1502 | loading takes every acceptable field of the source and keeps the object's own for the others; NULL exactly when there is none of either |
| Gecos.LoadIsIdentityOnCanonical | src/daemon/core/gumd-daemon-user.c:1470-1508 | loading into a fresh object changes nothing exactly for canonical strings |
| Gecos.LoadIsIdempotent | src/daemon/core/gumd-daemon-user.c:1470-1508 | what loading makes of a string is canonical or NULL, and loading it again changes nothing |
| Gecos.UpdateRec | src/daemon/core/gumd-daemon-user.c:1903-1938 | an update fills each field that the request leaves empty from the acceptable fields of any line and keeps the others; the result is canonical, or NULL exactly when there is nothing to make it of |
| AtomicFile.CreateReads | src/common/gum-file.c:231-287 | opening the duplicate empties it and disturbs neither source nor backup |
| AtomicFile.RenameReads | src/common/gum-file.c:345-350 | the rename gives the source the duplicate's contents and keeps the backup |
| AtomicFile.AtEveryStop | src/common/gum-file.c:303-359 | wherever the process stops, the source name leads to all of the old or all of the new contents |
| AtomicFile.DbFile.OpenDbFiles | src/common/gum-file.c:231-287 | TRUE exactly when source, duplicate and attributes succeed; else source and backup are as they were, and an opened duplicate is gone if it can be unlinked |
| AtomicFile.DbFile.Put | src/daemon/core/gumd-daemon-user.c:974-977 | a record reaches the duplicate only, unless this is the one that fails |
| AtomicFile.DbFile.Abandon | src/common/gum-file.c:409-418 | after a failed callback source and backup are as they were, and the duplicate is gone if it can be unlinked |
| AtomicFile.DbFile.Backup | src/common/gum-file.c:333-343 | the backup is the old contents if it was linked, else what the unlink left |
| AtomicFile.DbFile.Withdraw | src/common/gum-file.c:345-356 | after a failed rename the source is as it was, and backup and duplicate are gone if they can be unlinked |
| AtomicFile.DbFile.Commit | src/common/gum-file.c:345-356 | the last two steps give the source the duplicate's contents and take the duplicate's name away |
| AtomicFile.DbFile.CloseDbFiles | src/common/gum-file.c:303-359 | TRUE exactly when flush and rename succeed; then one step replaces old by new and the duplicate's name is gone; else every step shows the old contents; in every case what the backup is |
| Entries.StreamedIsNext | src/daemon/core/gumd-daemon-user.c:940-997 | reading every entry leaves the list operation's result; it fails exactly when nothing matches, or on adding a present key |
| Entries.Stages | src/daemon/core/gumd-daemon-user.c:940-997 | the duplicate after each entry of the source, from nothing to that result |
| Entries.StreamEntry | src/daemon/core/gumd-daemon-user.c:941-978 | one turn of the loop writes the entry or what replaces it, if its writes succeed |
| Entries.StreamEntries | src/daemon/core/gumd-daemon-group.c:449-506 | the loop writes the list operation's result: insert before the first larger id else at the end, remove or replace the first match, append unless present |
| Entries.FileUpdate | src/common/gum-file.c:377-423 | with any of the streams that add, delete or modify one entry: TRUE exactly when there is a result and every call succeeds; then the file is the result, else it is as it was, at every step |
| Entries.OutcomeReads | src/common/gum-file.c:377-423 | the step-wise outcome fixes what the file reads as afterwards |
| Entries.RewriteLoop | src/daemon/core/gumd-daemon-group.c:1241-1264 | every entry reaches the duplicate in its edited form, in order |
| Entries.RewriteEntries | src/daemon/core/gumd-daemon-group.c:1231-1273 | the loop and the replacement around it: all entries edited or nothing changed |
| IdAllocation.FindFreeId | src/daemon/core/gumd-daemon-user.c:808-830 | whenever the search ends it returns, on a counter that wraps, the least free id there is for it |
| IdAllocation.SearchGoesOn | src/daemon/core/gumd-daemon-user.c:818-828 | a search once begun goes on for ever exactly when its range ends at 2^32 - 1 and every id is taken |
| IdAllocation.NoUidLeft | src/daemon/core/gumd-daemon-user.c:818-828 | a concrete search without end |
| IdAllocation.FreeIdChosen | src/daemon/core/gumd-daemon-group.c:379-408 | every search that ends: nothing for an empty range, else the least free id of the range; if the range is full, nothing, or the least free id of all when it ends at 2^32 - 1 |
| IdAllocation.IdBelowRange | src/daemon/core/gumd-daemon-group.c:396-406 | a concrete result below its range |
| IdAllocation.FewerIdsThanRange | src/daemon/core/gumd-daemon-user.c:818-828 | with at most max - min ids taken the search succeeds within the range |
| GroupTheorems.GidChoice | src/daemon/core/gumd-daemon-group.c:356-408 | a free preferred gid is returned as is, else what the search in the range for the group's type chooses, whatever the range |
| UserAddTheorems.UidChoice | src/daemon/core/gumd-daemon-user.c:778-830 | the uid is what the search in the range for the user's type chooses, whatever the range |
| Integrity.NextGroupGids | src/daemon/core/gumd-daemon-group.c:437-509 | adding keeps all gids and adds one, modifying keeps them, deleting loses at most the group's own |
| Integrity.GroupDeleteGids | src/daemon/core/gumd-daemon-group.c:886-959 | deleting a group keeps every user's primary group, whatever fails |
| Integrity.SetGroupGids | src/daemon/core/gumd-daemon-user.c:1159-1205 | the gid given to a new user is in the group file before passwd is written |
| Integrity.UserAddIntegrity | src/daemon/core/gumd-daemon-user.c:1686-1785 | adding a user keeps referential integrity, whatever fails |
| Integrity.UserDeleteIntegrity | src/daemon/core/gumd-daemon-user.c:1787-1901 | deleting a user keeps referential integrity, whatever fails |
| Integrity.UserUpdateIntegrity | src/daemon/core/gumd-daemon-user.c:1940-2068 | updating a user keeps referential integrity, whatever fails |
| Integrity.DeleteMembershipGids | src/daemon/core/gumd-daemon-group.c:1205-1339 | removing memberships loses no gid |
| Runs.RunIntegrity | src/daemon/core/gumd-daemon-user.c:1738-1751 | over every run, whichever calls fail and whatever objects are used, each passwd entry's gid is a group's |
| Ordering.NextPasswdAscends | src/daemon/core/gumd-daemon-user.c:927-1000 | adding an untaken uid, deleting and modifying keep the uids strictly ascending |
| Ordering.NextGroupAscends | src/daemon/core/gumd-daemon-group.c:437-509 | adding an untaken gid, deleting and modifying keep the gids strictly ascending |
| Ordering.NextPasswdUnique | src/daemon/core/gumd-daemon-user.c:927-1000 | in a file of any order: adding an untaken uid, deleting and modifying keep the uids unique |
| Ordering.NextGroupUnique | src/daemon/core/gumd-daemon-group.c:437-509 | the same for gids |
| Ordering.UserAddOrder | src/daemon/core/gumd-daemon-user.c:1686-1785 | adding a user keeps unique ids unique and both files in ascending order if they are in it, whatever fails |
| Ordering.UserDeleteOrder | src/daemon/core/gumd-daemon-user.c:1787-1901 | so does deleting a user |
| Ordering.UserUpdateOrder | src/daemon/core/gumd-daemon-user.c:1940-2068 | so does updating a user |
| Ordering.GroupAddOrder | src/daemon/core/gumd-daemon-group.c:812-884 | adding a group keeps unique gids unique and the group file in ascending order if it is in it, whatever fails |
| Runs.RunIds | src/daemon/core/gumd-daemon-user.c:832-864 | over every run, whichever calls fail and in whatever order the files are, uids and gids that are unique stay unique; files in strictly ascending order stay in it |
| Naming.UserAddNames | src/daemon/core/gumd-daemon-user.c:1686-1785 | adding a user puts no name twice into any file, whatever fails |
| Naming.UserDeleteNames | src/daemon/core/gumd-daemon-user.c:1787-1901 | nor does deleting one |
| Naming.UserUpdateNames | src/daemon/core/gumd-daemon-user.c:1940-2068 | updating one keeps all names unique exactly when it does not succeed in writing a name that shadow already has, through a misnamed object, whatever fails |
| Naming.GroupAddNames | src/daemon/core/gumd-daemon-group.c:812-884 | adding a group puts no name twice into group or gshadow, whatever fails |
| Naming.GroupUpdateNames | src/daemon/core/gumd-daemon-group.c:961-1041 | updating one keeps the names of groups unique exactly when it does not succeed in writing a name that gshadow already has, through a misnamed object, whatever fails |
| Naming.UserUpdateCommits | src/daemon/core/gumd-daemon-user.c:1940-2068 | exactly when an update succeeds, the fate of both replacements included |
| Naming.GroupUpdateCommits | src/daemon/core/gumd-daemon-group.c:961-1041 | exactly when an update of a group succeeds, the fate of the replacements and a missing gshadow included |
| Naming.NextNames | src/daemon/core/gumd-daemon-user.c:1089-1157 | one edit of a list keeps its names unique exactly when it gives no entry the name of another |
| Runs.RunNames | src/daemon/core/gumd-daemon-user.c:832-864 | over every run, whichever calls fail and whatever objects are used, no file holds a name twice at any point exactly when no update doubles one |
| Cases.RenamedUpdateDoublesName | src/daemon/core/gumd-daemon-user.c:1988-1994 | a concrete update after which shadow holds a name twice |
| GroupAgreement.GroupAddAgrees | src/daemon/core/gumd-daemon-group.c:812-884 | group and gshadow keep the same names, members and administrators among the members, without duplicates; without gshadow, names and gids in group stay unique |
| GroupAgreement.GroupDeleteAgrees | src/daemon/core/gumd-daemon-group.c:886-959 | a group delete, whatever it returns, keeps names, members and administrators of the two files in agreement |
| GroupAgreement.GroupUpdateAgrees | src/daemon/core/gumd-daemon-group.c:961-1041 | exactly when an update succeeds; one that does keeps the agreement exactly when there is no gshadow or the object is not misnamed; stale member lists do no harm to it |
| GroupAgreement.GroupAddMemberAgrees | src/daemon/core/gumd-daemon-group.c:1043-1122 | adding a member keeps that agreement, with and without making it an administrator |
| GroupAgreement.GroupDeleteMemberAgrees | src/daemon/core/gumd-daemon-group.c:1124-1203 | deleting a member keeps that agreement; an administrator does not outlive the membership |
| GroupAgreement.DeleteMembershipAgrees | src/daemon/core/gumd-daemon-group.c:1205-1339 | the two purge loops keep that agreement |
| UserConsistency.UserAddConsistent | src/daemon/core/gumd-daemon-user.c:1686-1785 | all files agree after an add, with or without gshadow, whatever it returns |
| UserConsistency.UserDeleteConsistent | src/daemon/core/gumd-daemon-user.c:1787-1901 | all files agree after a delete, with or without gshadow, whatever it returns and however far it gets |
| UserUpdateTheorems.UserUpdateConsistent | src/daemon/core/gumd-daemon-user.c:1940-2068 | an update that finds something to do keeps all files in agreement exactly when the object is not misnamed |
| Runs.SetUserOk | src/daemon/core/gumd-daemon-user.c:206-366 | every setter, whatever its value, keeps a request object fit for the other theorems |
| Runs.LoadUserOk | src/daemon/core/gumd-daemon-user.c:1510-1541 | loading a line, acceptable or not, gives such an object, whatever the group files are like |
| Runs.UserSettersRoute | src/daemon/core/gumd-daemon-user.c:184-366 | each setter of a user changes its own property, for acceptable values, and no other |
| Runs.TextSettersRoute | src/daemon/core/gumd-daemon-user.c:206-340 | so do those of the GECOS fields |
| Runs.GroupSettersRoute | src/daemon/core/gumd-daemon-group.c:122-172 | so do those of a group |
| Clients.ClientChangesShell | src/daemon/core/gumd-daemon-user.c:1940-2068 | loading, setting and updating, from the first request to the last: the line has the new shell and nothing else changes |
| Clients.ClientDeletesUser | src/daemon/core/gumd-daemon-user.c:1787-1901 | loading by name and deleting: the lines are gone and no list holds the name |
| Clients.ClientAddsGroup | src/daemon/core/gumd-daemon-group.c:812-884 | a new object, named and added: the group's line |
| Clients.ClientDeletesGroup | src/daemon/core/gumd-daemon-group.c:886-959 | loading a group by gid and deleting it: its line is gone |
| Clients.ClientAddsUser | src/daemon/core/gumd-daemon-user.c:1686-1785 | a new object, named, typed and added: one line in each user file, with the first uid and gid of their ranges |
| Runs.StepOk | src/daemon/core/gumd-daemon-user.c:1686-2068 | one request of any kind keeps the files in agreement and the objects fit exactly when it is no update, of something there is to update, through a misnamed object |
| Runs.RunConsistent | src/daemon/core/gumd-daemon-group.c:1002-1035 | over every run with successful writes, with or without gshadow: at every point passwd and shadow hold the same users, group and gshadow the same groups and members, names and ids unique, exactly when no update misnames an entry |
| Runs.RunUsers | src/daemon/core/gumd-daemon-user.c:1744-1890 | over every run, whichever calls fail and whatever the group files and group objects are: passwd and shadow hold the same users at every point exactly when no add or delete makes its replacement of passwd and not that of shadow, and no update writes a misnamed entry |
| Runs.RunGroups | src/daemon/core/gumd-daemon-group.c:846-1332 | over every run, whichever calls fail and whatever the user files and user objects are: group and gshadow hold the same groups and members at every point exactly when no step of a request replaces one of them by what the other does not go with |
| GroupTheorems.GroupAddExact | src/daemon/core/gumd-daemon-group.c:812-884 | exactly when a group is added; then one line before the first larger gid and one at the end of gshadow, if there is one, under a free gid; else nothing changes |
| GroupTheorems.GroupAddThenLoad | src/daemon/core/gumd-daemon-group.c:734-787 | loading by gid gives back the entries that were added |
| GroupTheorems.AddMemberExact | src/daemon/core/gumd-daemon-group.c:1043-1122 | exactly when a member is added; then the name stands at the end of both member lists, and of the administrators if asked, and nothing else changes but a password field that the validator refuses |
| GroupTheorems.FailedAddMember | src/daemon/core/gumd-daemon-group.c:1043-1122 | an addition that fails changes nothing |
| GroupTheorems.DeleteMemberExact | src/daemon/core/gumd-daemon-group.c:1124-1203 | exactly when a member is deleted; then the name is out of all three lists and nothing else changes but a password field that the validator refuses |
| GroupTheorems.AddThenDeleteMember | src/daemon/core/gumd-daemon-group.c:1043-1203 | deleting a member who was just added succeeds and restores all files, but for the group's password field, which is restored exactly when it is accepted or is the object's own |
| GroupTheorems.UpdateExact | src/daemon/core/gumd-daemon-group.c:961-1041 | exactly when a group is updated; then the secret is new and the lists are the object's own where it holds any |
| GroupTheorems.ObjectHoldsLines | src/daemon/core/gumd-daemon-group.c:812-1203 | after an add, an update, or an addition or deletion of a member the object holds what the files hold |
| GroupTheorems.RefusedObject | src/daemon/core/gumd-daemon-group.c:812-1203 | an operation that is refused before it loads or fills the object leaves it as it was |
| GroupTheorems.UpdateKeepsMembers | src/daemon/core/gumd-daemon-group.c:1004-1009 | an update leaves all member lists alone exactly when the object holds none or the one in the file |
| GroupTheorems.StaleUpdateDropsMember | src/daemon/core/gumd-daemon-group.c:1004-1009 | a concrete case in which it does not |
| UserTheorems.GroupDeleteExact | src/daemon/core/gumd-daemon-group.c:886-959 | for any files and any object: exactly when a delete succeeds, and then the group is gone, unless it is some user's primary group; what goes when it fails: the line in group of a group that gshadow lacks |
| UserTheorems.LockThenUnlock | src/daemon/core/gumd-daemon-user.c:1025-1087 | locking and unlocking restores the shadow file exactly when the secret does not begin with '!' |
| ShadowLock.NextLockedExact | src/daemon/core/gumd-daemon-user.c:1025-1087 | locking and unlocking find the user exactly if there is an entry of the name, and rewrite the first one: name and ageing kept, the mark put before the secret or taken away, an entry in that state already left without a secret; no other entry changes |
| ShadowLock.LockedKeepsSecret | src/daemon/core/gumd-daemon-user.c:1046-1058 | an open entry is locked with its secret behind the mark, and unlocking brings back the file |
| ShadowLock.HashLocked | src/daemon/core/gumd-daemon-user.c:1046-1058 | a concrete lock and unlock |
| UserTheorems.LockedSecretIsLost | src/daemon/core/gumd-daemon-user.c:1051-1058 | a concrete secret that is lost |
| UserTheorems.AbandonedDelete | src/daemon/core/gumd-daemon-user.c:1829-1850 | a delete given up at session termination leaves passwd and both group files alone, and shadow exactly when the user was not locked |
| UserTheorems.LeaveGroupsExact | src/daemon/core/gumd-daemon-user.c:1887-1892 | for any group files: the last part of a delete is done in full exactly when the gid is a group's, valid and not the daemon's own, and the group is shared or can be removed; else it changes nothing, or removes only the line of a group that gshadow lacks |
| UserTheorems.UserDeleteLeaves | src/daemon/core/gumd-daemon-user.c:1787-1901 | for any group files, what every delete leaves, whatever it returns: nothing changed before it begins; the secret at most when it is given up; else the user's lines gone, and the groups left in full, or not at all but for the line of a group that gshadow lacks |
| UserTheorems.DeleteTouches | src/daemon/core/gumd-daemon-user.c:1823-1892 | exactly when a delete leaves passwd alone, and exactly when it leaves shadow alone |
| UserTheorems.RefusedDeleteRemovesLines | src/daemon/core/gumd-daemon-user.c:1866-1892 | a concrete delete that is refused for the primary group, with the user gone from passwd and shadow and still a member |
| UserTheorems.UserDeleteExact | src/daemon/core/gumd-daemon-user.c:1787-1901 | for any group files: after a successful delete the name is in neither user file and in no list, the primary group is gone exactly when no user has its gid (if gids are unique), and every other record is as it was up to the name |
| UserTheorems.UserDeleteSucceeds | src/daemon/core/gumd-daemon-user.c:1803-1898 | for any group files: exactly when a delete succeeds, on what is known before the call |
| UserTheorems.DeletedObject | src/daemon/core/gumd-daemon-user.c:1787-1901 | the object after a delete, whatever it returns, is as it was or as it is loaded |
| UserTheorems.PrimaryLeavesWhenConsistent | src/daemon/core/gumd-daemon-group.c:896-925 | in files that agree, and with every primary group there, only the daemon's own group and "no gid" stop a delete |
| UserTheorems.PurgedIsNowhere | src/daemon/core/gumd-daemon-group.c:1241-1323 | after the purge loops no list holds the name |
| UserTheorems.PurgeKeepsOthers | src/daemon/core/gumd-daemon-group.c:1241-1323 | the purge of an entry takes the name out of its lists and keeps the rest, in order |
| UserTheorems.MembershipSuccessIsPartial | src/daemon/core/gumd-daemon-group.c:1262-1283 | TRUE with the name still listed, exactly when the group rewrite failed after opening and the gshadow rewrite did not |
| UserTheorems.MemberAfterSuccess | src/daemon/core/gumd-daemon-group.c:1262-1283 | a concrete such case |
| UserUpdateTheorems.UserUpdateExact | src/daemon/core/gumd-daemon-user.c:1940-2068 | for any group files: an update of any line keeps name, ids, home directory and type, writes the filled-in GECOS fields, and replaces one line in each of passwd and shadow; a refused one writes nothing |
| UserUpdateTheorems.UserUpdateSucceeds | src/daemon/core/gumd-daemon-user.c:1979-2046 | exactly when an update succeeds, for every line and every object: what is asked for, and that filling the five fields brings out the type of the line again |
| UserUpdateTheorems.UpdatedObject | src/daemon/core/gumd-daemon-user.c:1940-2068 | what the object holds after an update, whether anything is written or not: the user's ids and name, the filled-in fields, its own shell and secret |
| UserUpdateTheorems.UpdateTwice | src/daemon/core/gumd-daemon-user.c:1979-2046 | after a successful update there is nothing left to update through the same object but a new icon |
| UserUpdateTheorems.UnchangedUpdate | src/daemon/core/gumd-daemon-user.c:1979-2046 | exactly when an update through an object just loaded succeeds, for any line |
| UserUpdateTheorems.NothingToUpdate | src/daemon/core/gumd-daemon-user.c:1979-2046 | for a line as an add writes it: only for a new icon, else it is refused and writes nothing |
| UserUpdateTheorems.SecretChanged | src/daemon/core/gumd-daemon-user.c:1996-2006 | a concrete secret that is asked for and written |
| UserUpdateTheorems.SameSecretRefused | src/daemon/core/gumd-daemon-user.c:1996-2006 | a concrete secret that is the one in the file: refused, nothing written |
| UserUpdateTheorems.DecidedWrite | src/daemon/core/gumd-daemon-user.c:1979-2046 | the same for the decision alone, before anything is written |
| UserUpdateTheorems.CanonicalWanted | src/daemon/core/gumd-daemon-user.c:2008-2046 | for a canonical line: the type asked for is none or the line's, and a secret, shell, icon or text is new |
| UserUpdateTheorems.ShortLineRefused | src/daemon/core/gumd-daemon-user.c:2008-2020 | a line of fewer than five fields is refused every update, unless neither it nor the object has an acceptable field |
| UserUpdateTheorems.LoadedUserRefused | src/daemon/core/gumd-daemon-user.c:2008-2020 | a concrete user who is loaded and cannot be given another shell |
| UserUpdateTheorems.UpdateEmptiesShell | src/daemon/core/gumd-daemon-user.c:2025-2031 | a concrete shell that is lost to an object that holds none |
| UserUpdateTheorems.UpdateKeepsSecret | src/daemon/core/gumd-daemon-user.c:1988-1989 | an update without a new secret leaves shadow alone exactly when the object is not misnamed and holds no secret or the one in the file |
| UserUpdateTheorems.StaleUpdateRevertsSecret | src/daemon/core/gumd-daemon-user.c:1988-1989 | a concrete old secret that comes back |
| UserUpdateTheorems.RenamedUpdateLosesUser | src/daemon/core/gumd-daemon-user.c:1988-1994 | a concrete user whose shadow entry is lost to a renamed object |
| UserTheorems.AddThenLoad | src/daemon/core/gumd-daemon-user.c:1510-1541 | whatever fails and whatever the group files are like, loading by uid after a successful add gives back the lines that were added |
| Loading.UserLoaded | src/daemon/core/gumd-daemon-user.c:1470-1541 | for any entries and any fit object: exactly when loading succeeds; then each string and each GECOS field is taken over if it is acceptable and else the object's own, and the ids and the shadow entry are taken over |
| Loading.FreshByUid | src/daemon/core/gumd-daemon-user.c:1510-1541 | loading by uid takes over the first line with the uid and the first entry of its name |
| Loading.FreshByName | src/daemon/core/gumd-daemon-user.c:1510-1541 | loading by name succeeds exactly if the name is valid and in both files, and takes over the first entries of the name |
| Loading.GroupLoaded | src/daemon/core/gumd-daemon-group.c:685-759 | the same for groups and any entries; gshadow need not have the group |
| Loading.UserFound | src/daemon/core/gumd-daemon-user.c:1434-1468 | the entry that has the uid and the name of the request, where these are set, and none if neither is |
| Loading.GroupFound | src/daemon/core/gumd-daemon-group.c:648-682 | the same for groups |
| Loading.LookupsExact | src/common/gum-file.c:434-675 | each lookup finds the first entry of the key, and none exactly if there is none |
| Loading.SettersTake | src/daemon/core/gumd-daemon-user.c:226-366 | a setter takes exactly the values that its validator accepts and changes nothing else |
| Loading.TwoFieldsLoaded | src/daemon/core/gumd-daemon-user.c:1485-1502 | a GECOS string of two fields is loaded with both |
| Loading.AnnLoaded | src/daemon/core/gumd-daemon-user.c:1485-1502 | a concrete one |
| Edits.PasswdAdds | src/daemon/core/gumd-daemon-user.c:927-1000 | in any file: a user is added before the first larger uid, or at the end |
| Edits.PasswdRemovesAndReplaces | src/daemon/core/gumd-daemon-user.c:927-1000 | in any file: removed, or replaced, at the first entry with the uid, the gid and the name or old name, and not at all exactly if there is none |
| Edits.ShadowEdits | src/daemon/core/gumd-daemon-user.c:1089-1157 | in any file: added at the end unless the name is there, removed or replaced at the first of the name |
| Edits.GroupAdds | src/daemon/core/gumd-daemon-group.c:437-509 | the same for groups as for users |
| Edits.GroupRemovesAndReplaces | src/daemon/core/gumd-daemon-group.c:437-509 | the same for groups as for users, by gid and name |
| Edits.GshadowEdits | src/daemon/core/gumd-daemon-group.c:511-578 | the same for gshadow as for shadow |
| Edits.LinesWritten | src/daemon/core/gumd-daemon-user.c:927-1157 | each field of a line is the object's, a NULL an empty one |
| UserAddTheorems.AddToGroupsJoins | src/daemon/core/gumd-daemon-user.c:1207-1249 | adding to the default groups: each named group that exists and lacks the user gets the name at the end of its member lists, with a refused password field emptied, and nothing else changes |
| UserAddTheorems.RealNameStays | src/daemon/core/gumd-daemon-user.c:728-776 | for a request with a type, naming the user sets the name only |
| UserAddTheorems.RealNameDefault | src/daemon/core/gumd-daemon-user.c:728-776 | a request without a GECOS string gets the user name for its real name |
| UserAddTheorems.UidSettled | src/daemon/core/gumd-daemon-user.c:832-864 | exactly when a new user gets name, uid and home directory, and which |
| UserAddTheorems.PrimaryGroupSettled | src/daemon/core/gumd-daemon-user.c:1159-1205 | exactly when the primary group is there or can be made, and what is then added |
| UserAddTheorems.UserAddExact | src/daemon/core/gumd-daemon-user.c:1686-1785 | exactly when an add succeeds; what all files hold then, with or without gshadow; and what a failed one leaves behind |
| UserAddTheorems.AddedObject | src/daemon/core/gumd-daemon-user.c:1686-1785 | what the object holds after an add, whatever it returns: shell, name, uid and home directory, each from the point on where it has been settled |
| RoundTrips.AddThenDelete | src/daemon/core/gumd-daemon-user.c:1686-1901 | deleting a user just added restores passwd and shadow; all files exactly when the name was in no list, the default groups have password fields that are copied, and the primary group was there before exactly if another user has it |
| PartialWrites.AddUserAgrees | src/daemon/core/gumd-daemon-user.c:1744-1754 | whatever fails, adding to passwd and shadow keeps them in agreement exactly when both are written or the first is not |
| PartialWrites.DeleteUserAgrees | src/daemon/core/gumd-daemon-user.c:1866-1874 | so does deleting, and what each file then is |
| PartialWrites.ModifyUserAgrees | src/daemon/core/gumd-daemon-user.c:2048-2060 | modifying keeps them in agreement whatever fails, unless it writes the shadow entry under another name |
| PartialWrites.UserUpdateAgrees | src/daemon/core/gumd-daemon-user.c:1940-2068 | a user update keeps passwd and shadow in agreement, whatever fails, exactly when it does not succeed in writing the user's shadow entry under another name |
| PartialWrites.UserAddAgrees | src/daemon/core/gumd-daemon-user.c:1686-1785 | an add keeps them in agreement, whatever fails and whatever the group files are, exactly when it does not come to write passwd and not shadow |
| PartialWrites.UserDeleteAgrees | src/daemon/core/gumd-daemon-user.c:1787-1901 | so does a delete |
| PartialWrites.PrepareReaches | src/daemon/core/gumd-daemon-user.c:1713-1743 | exactly when an add comes to write passwd, the fate of the group replacements included |
| PartialWrites.DeleteStopsAtShadow | src/daemon/core/gumd-daemon-user.c:1866-1885 | what a delete leaves that cannot rewrite shadow: the line out of passwd only, the groups as they were, the entry unlocked or still locked |
| PartialWrites.DeleteGivesUp | src/daemon/core/gumd-daemon-user.c:1819-1885 | what a delete leaves that is stopped before it takes the line out of passwd, by whichever call: nothing changed if the lock cannot be written; else the user unlocked again if that can be, or still locked with the secret behind the mark |
| PartialGroupWrites.AddGroupAgrees | src/daemon/core/gumd-daemon-group.c:846-866 | whatever fails, adding to group and gshadow keeps them in agreement exactly when both are written or the first is not, or there is no gshadow |
| PartialGroupWrites.DeleteGroupAgrees | src/daemon/core/gumd-daemon-group.c:939-955 | so does deleting |
| PartialGroupWrites.ModifyGroupAgrees | src/daemon/core/gumd-daemon-group.c:1017-1036 | modifying keeps them in agreement exactly when there is no gshadow, or both are written under one name, or the first is not, or only the first is and the members are the same |
| PartialGroupWrites.AddingAgrees | src/daemon/core/gumd-daemon-group.c:812-884 | adding a group keeps group and gshadow in agreement, whatever fails, exactly when it does not write the first and not the second |
| PartialGroupWrites.DeletingAgrees | src/daemon/core/gumd-daemon-group.c:886-959 | so does deleting one |
| PartialGroupWrites.UpdatingAgrees | src/daemon/core/gumd-daemon-group.c:961-1041 | updating one keeps it exactly when it neither writes a misnamed entry into gshadow nor the object's own members into group alone |
| PartialGroupWrites.AddMemberAgrees | src/daemon/core/gumd-daemon-group.c:1043-1122 | adding a member keeps it exactly when it does not write group alone |
| PartialGroupWrites.DeleteMemberAgrees | src/daemon/core/gumd-daemon-group.c:1124-1203 | so does deleting one |
| PartialGroupWrites.PurgeAgrees | src/daemon/core/gumd-daemon-group.c:1205-1339 | removing memberships keeps it exactly when it does not rewrite one of the files alone, for a name that is listed |
| PartialGroupWrites.AddToGroupsAgrees | src/daemon/core/gumd-daemon-user.c:1207-1249 | joining groups one after the other keeps it exactly when no addition parts the files: a later one does not mend them |
| PartialGroupWrites.UserAddAgrees | src/daemon/core/gumd-daemon-user.c:1686-1785 | adding a user keeps it, whatever fails, exactly when neither making the primary group nor joining the default groups parts the files |
| PartialGroupWrites.UserDeleteAgrees | src/daemon/core/gumd-daemon-user.c:1787-1901 | deleting a user keeps it, whatever fails, exactly when neither deleting the primary group nor removing the memberships parts the files |
| Cases.MembershipEmptiesPasswd | src/daemon/core/gumd-daemon-group.c:1081-1090 | a concrete password field that is emptied when a member is added |
| Cases.RenamedGroupLosesShadow | src/daemon/core/gumd-daemon-group.c:1000-1035 | a concrete group whose gshadow entry is lost to a renamed object |
| Cases.UserStaysWithoutHome | src/daemon/core/gumd-daemon-user.c:1744-1763 | a concrete add that fails for want of a home directory, with the user in both files |
| Cases.NewAnnAdded | src/daemon/core/gumd-daemon-user.c:1686-1785 | a concrete add to empty files |
| Cases.DeleteStopsAtGshadow | src/daemon/core/gumd-daemon-user.c:1887-1892 | a concrete user delete that stops at a group that gshadow lacks |
| Cases.MemberInOneFile | src/daemon/core/gumd-daemon-group.c:1104-1118 | a concrete member in group and not in gshadow, after a failed replacement |
| Locking.CallKeepsHeld | src/common/gum-lock.c:73-122 | the lock stays held exactly at positive depth, unless an outermost unlock fails |
| Locking.CallKeepsPrivileged | src/common/gum-lock.c:73-122 | the privileges are held exactly at positive depth, unless an outermost lock or unlock fails |
| Locking.CallMovesDepth | src/common/gum-lock.c:73-122 | exactly when a call succeeds, and by how much it moves the depth |
| Locking.RunKeepsHeld | src/common/gum-lock.c:73-122 | over every run of calls in which ulckpwdf succeeds the lock is held exactly at positive depth; the privileges too if lckpwdf succeeds |
| Locking.LockThenUnlock | src/common/gum-lock.c:73-122 | unlocking after locking restores the depth, and everything if the system calls succeed |
| Locking.PwdfLock.Acquire | src/common/gum-lock.c:73-90 | deeper than zero it only counts; at zero it gains privileges and the lock, or fails with the privileges kept and the depth unchanged |
| Locking.PwdfLock.Release | src/common/gum-lock.c:103-122 | fails at zero; deeper than one it only counts; at one it gives lock and privileges up, or fails with both kept at depth zero |
| Store.FindEntry | src/common/gum-file.c:434-675 | the lookups return the first matching entry, or none exactly when nothing matches |
| Store.AccountStore.UserByGid | src/common/gum-file.c:503-536 | the first user of a gid; none for the invalid gid |
| Store.AccountStore.UpdatePasswd | src/daemon/core/gumd-daemon-user.c:927-1000 | one atomic replacement of passwd, at positive lock depth only |
| Store.AccountStore.UpdateShadow | src/daemon/core/gumd-daemon-user.c:1089-1157 | one atomic replacement of shadow, at positive lock depth only |
| Store.AccountStore.LockShadow | src/daemon/core/gumd-daemon-user.c:1025-1087 | one atomic replacement of shadow, at positive lock depth only; TRUE exactly when the user's entry has been locked or unlocked as ShadowLock says, else nothing is changed |
| Store.AccountStore.UpdateGroup | src/daemon/core/gumd-daemon-group.c:437-509 | one atomic replacement of group, at positive lock depth only |
| Store.AccountStore.UpdateGshadow | src/daemon/core/gumd-daemon-group.c:511-578 | one atomic replacement of gshadow, at positive lock depth only |
| Store.AccountStore.PurgeGroupFile | src/daemon/core/gumd-daemon-group.c:1231-1273 | one atomic replacement of group with the name taken out of every list, at positive lock depth only |
| Store.AccountStore.PurgeGshadowFile | src/daemon/core/gumd-daemon-group.c:1277-1332 | one atomic replacement of gshadow with the name taken out of both lists of every entry, at positive lock depth only |
| Store.AccountStore.Enter | src/common/gum-lock.c:73-90 | an operation that gets the lock is one level deeper; one that does not leaves the depth |
| Store.AccountStore.Exit | src/common/gum-lock.c:103-122 | leaving restores the depth that was found |
| DaemonGroup.GroupObject.FindFreeId | src/daemon/core/gumd-daemon-group.c:379-408 | the loop finds the preferred gid or the least free one of the range |
| DaemonGroup.GroupObject.SetId | src/daemon/core/gumd-daemon-group.c:410-435 | the object gets a gid exactly when its name is valid and new and a gid is free |
| DaemonGroup.GroupObject.EncryptSecret | src/daemon/core/gumd-daemon-group.c:580-611 | the secret to write and the password marker |
| DaemonGroup.GroupObject.SetShadow | src/daemon/core/gumd-daemon-group.c:613-627 | the gshadow entry takes the name and the members of the group entry |
| DaemonGroup.GroupObject.FindSelf | src/daemon/core/gumd-daemon-group.c:648-682 | the entry with the object's gid and name, where these are set |
| DaemonGroup.GroupObject.CopyShadow | src/daemon/core/gumd-daemon-group.c:714-732 | all fields, or those that are NULL |
| DaemonGroup.GroupObject.Load | src/daemon/core/gumd-daemon-group.c:734-759 | the object is filled from both files, or is left as it was |
| DaemonGroup.GroupObject.AddGroup | src/daemon/core/gumd-daemon-group.c:812-884 | database, object and result are those of the specified add, failures included, and the lock depth is restored on every exit |
| DaemonGroup.GroupObject.DeleteGroup | src/daemon/core/gumd-daemon-group.c:886-959 | the same for the specified delete, with its guards for the caller's own group and for primary groups |
| DaemonGroup.GroupObject.WriteSecret | src/daemon/core/gumd-daemon-group.c:1000-1037 | the object is filled from both entries and both files are written, or neither when the secret cannot be encrypted |
| DaemonGroup.GroupObject.UpdateSecret | src/daemon/core/gumd-daemon-group.c:961-1041 | the same for the specified update |
| DaemonGroup.GroupObject.AddMember | src/daemon/core/gumd-daemon-group.c:1043-1122 | the same for the specified addition of a member, with the vectors built in their buffers |
| DaemonGroup.GroupObject.DeleteMember | src/daemon/core/gumd-daemon-group.c:1124-1203 | the same for the specified deletion of a member, whose vectors never leave their buffers |
| DaemonGroup.DeleteUserMembership | src/daemon/core/gumd-daemon-group.c:1205-1339 | the same for the two purge loops, including which failures are forgotten |
| DaemonUser.UserObject.SetTextProperty | src/daemon/core/gumd-daemon-user.c:266-340 | the packed string after a text field is set, built by the string routines, is that of the record setter |
| DaemonUser.UserObject.SetTypeProperty | src/daemon/core/gumd-daemon-user.c:206-224 | the packed string after a type is set, built by the string routines, is that of the record setter |
| DaemonUser.UserObject.SetName | src/daemon/core/gumd-daemon-user.c:728-776 | the object gets a valid name, asked for or generated, or is left as it was |
| DaemonUser.UserObject.FindFreeId | src/daemon/core/gumd-daemon-user.c:808-830 | the loop finds the least free uid of the range for the user's type |
| DaemonUser.UserObject.SetId | src/daemon/core/gumd-daemon-user.c:832-864 | the object gets name, uid and home directory exactly when the name is valid and new and a uid is free |
| DaemonUser.UserObject.EncryptSecret | src/daemon/core/gumd-daemon-user.c:866-897 | the secret to write, by user type if none was given |
| DaemonUser.UserObject.SetShadow | src/daemon/core/gumd-daemon-user.c:899-925 | the shadow entry takes name, secret and ageing |
| DaemonUser.UserObject.SetPrimaryGroup | src/daemon/core/gumd-daemon-user.c:1159-1205 | the primary group is found or added through a nested group operation, which restores the lock depth |
| DaemonUser.UserObject.JoinGroup | src/daemon/core/gumd-daemon-user.c:1228-1239 | one membership is added through a nested group operation, which restores the lock depth |
| DaemonUser.UserObject.JoinDefaultGroups | src/daemon/core/gumd-daemon-user.c:1207-1249 | the loop over the default groups is the specified fold, failures skipped |
| DaemonUser.UserObject.FindSelf | src/daemon/core/gumd-daemon-user.c:1434-1468 | the entry with the object's uid and name, where these are set |
| DaemonUser.UserObject.CopyPw | src/daemon/core/gumd-daemon-user.c:1470-1508 | the object takes the acceptable fields of a line |
| DaemonUser.UserObject.Load | src/daemon/core/gumd-daemon-user.c:1510-1541 | the object is filled from both files, or is left as it was |
| DaemonUser.UserObject.Leave | src/daemon/core/gumd-daemon-user.c:1278-1301 | the primary group and the memberships go through nested operations |
| DaemonUser.UserObject.UpdateField | src/daemon/core/gumd-daemon-user.c:1903-1938 | one GECOS field is filled from the file if it is empty |
| DaemonUser.UserObject.Decide | src/daemon/core/gumd-daemon-user.c:1979-2046 | whether an update writes, and what |
| DaemonUser.UserObject.AddUser | src/daemon/core/gumd-daemon-user.c:1686-1785 | database, object and result are those of the specified add, through nested group operations and with every failure, and the lock depth is restored on every exit |
| DaemonUser.UserObject.Remove | src/daemon/core/gumd-daemon-user.c:1819-1898 | the specified removal of a loaded user: lock, give up or write both files, unlock on failure, group and memberships, home directory |
| DaemonUser.UserObject.DeleteUser | src/daemon/core/gumd-daemon-user.c:1787-1901 | the same for the specified delete: lock, terminate, unlock on failure, two files, group and memberships |
| DaemonUser.UserObject.UpdateUser | src/daemon/core/gumd-daemon-user.c:1940-2068 | the same for the specified update; nothing is written when nothing changed |
| DaemonUser.NewUserByUid | src/daemon/core/gumd-daemon-user.c:1642-1661 | an object exactly when the lock is had and the user can be loaded; files and lock depth as before |
| DaemonUser.NewUserByName | src/daemon/core/gumd-daemon-user.c:1663-1684 | an object exactly when the lock is had and a user of that name can be loaded; files and lock depth as before |
| Disposable.KeepAndReleaseSound | src/common/gum-disposable.c:349-361 | keeping and releasing keep the timer invariant, and the count never goes negative |
| Disposable.SetTimeoutSound | src/common/gum-disposable.c:371-382 | setting a timeout keeps it exactly when it is no change, or the object is kept, doomed or had none; only the timeout is set |
| Disposable.TwoTimeouts | src/common/gum-disposable.c:371-382 | a concrete leak |
| Disposable.DeleteLaterSound | src/common/gum-disposable.c:392-402 | asking for deletion replaces a pending timeout by one idle source |
| Disposable.FireSound | src/common/gum-disposable.c:287-313 | a source that fires leaves none, and keeps the timer invariant exactly when it held the last reference |
| Disposable.RunOnceSound | src/common/gum-disposable.c:316-402 | over every run that sets the timeout at most once and in which nothing outlives its timer: at most one source, none while kept, one pending when not |
| Disposable.RunOnceBounded | src/common/gum-disposable.c:316-402 | over every run that sets the timeout at most once, whatever outlives its timer: at most one source, and none while kept |
| Disposable.OutlivesItsTimer | src/common/gum-disposable.c:287-313 | a concrete object that stays with nothing pending |
| Disposable.DeletionStands | src/common/gum-disposable.c:316-402 | once asked for, deletion is cancelled by no later keep, release or timeout |
| Disposable.DisposableObject.RefreshTimer | src/common/gum-disposable.c:316-339 | a timeout is added at count zero and the stored source removed at a positive count, unless deletion was asked for |
| Disposable.DisposableObject.AutoDispose | src/common/gum-disposable.c:349-361 | a release at count zero is ignored; any other call counts and refreshes the timer |
| Disposable.DisposableObject.ChangeTimeout | src/common/gum-disposable.c:371-382 | a new value is stored and the timer refreshed, an equal one is ignored |
| Disposable.DisposableObject.Doom | src/common/gum-disposable.c:392-402 | the pending source is replaced by an idle one and the object marked |
| Disposable.DisposableObject.Dispatched | src/common/gum-disposable.c:287-313 | the source that fires is gone; with the last reference so is what is left of the timer, and the object is disposed of |
| UserService.BodyBalanced | src/daemon/dbus/gumd-dbus-user-service-adapter.c:479-545 | between its keep and its release a request keeps the count in step and every listed peer watched |
| UserService.DisposedBalanced | src/daemon/dbus/gumd-dbus-user-service-adapter.c:440-459 | the disposal of a listed adapter keeps the count in step, whatever is in flight, and delists it |
| UserService.NameLostBalanced | src/daemon/dbus/gumd-dbus-user-service-adapter.c:372-398 | a lost name keeps the count in step exactly when some peer is listed or nothing is in flight; it leaves no entry and no watch for the peer |
| UserService.NameLostKeepsOthers | src/daemon/dbus/gumd-dbus-user-service-adapter.c:352-398 | a lost name takes out its own entries wherever they stand, keeps the others in order, and leaves exactly the other watches |
| UserService.DisposedKeepsOthers | src/daemon/dbus/gumd-dbus-user-service-adapter.c:421-459 | the disposal of an adapter does the same to its entries and leaves all watches |
| UserService.RemovalsExact | src/daemon/dbus/gumd-dbus-user-service-adapter.c:352-459 | an entry is listed afterwards exactly when it was and is not one that goes; while one is, the hold and the timer stay as they are, else one hold is released |
| UserService.RequestLists | src/daemon/dbus/gumd-dbus-user-service-adapter.c:479-697 | a request lists exactly the adapter it makes, at the end: for a new user always, for a user asked for exactly if the daemon has it and the peer's cache has not; and which names are watched then |
| UserService.FirstIsFound | src/daemon/dbus/gumd-dbus-user-service-adapter.c:510-545 | of the peer's own adapters for the user that are not to be deleted the first is found |
| UserService.CachedTakesHold | src/daemon/dbus/gumd-dbus-user-service-adapter.c:479-508 | the list takes a hold with its first entry and none with another |
| UserService.HoldLostInFlight | src/daemon/dbus/gumd-dbus-user-service-adapter.c:395-397 | a concrete imbalance |
| UserService.StepSteady | src/daemon/dbus/gumd-dbus-user-service-adapter.c:352-697 | one event keeps count, watches and timer in step |
| UserService.RunSteady | src/daemon/dbus/gumd-dbus-user-service-adapter.c:352-697 | over every run: the count is one if a peer is listed and zero if none is, every listed peer is watched, and the timer runs exactly while there are none |
| UserService.RunKeepsPeer | src/daemon/dbus/gumd-dbus-user-service-adapter.c:352-697 | over every run: a listed peer stays listed, and no timer runs, until its own name is lost or its adapter disposed of, whatever other peers do |
| UserService.UserServiceAdapter.Drop | src/daemon/dbus/gumd-dbus-user-service-adapter.c:388-389 | removing from the list while walking it removes exactly the matching peers, in order |
| UserService.UserServiceAdapter.OnBusNameLost | src/daemon/dbus/gumd-dbus-user-service-adapter.c:372-398 | the peer's entries and its watch go, and the hold of the list is released if it is empty |
| UserService.UserServiceAdapter.OnAdapterDisposed | src/daemon/dbus/gumd-dbus-user-service-adapter.c:440-459 | the adapter's entries go, and the hold of the list is released if it is empty |
| UserService.UserServiceAdapter.Watch | src/daemon/dbus/gumd-dbus-user-service-adapter.c:400-419 | one watch for each name, on the message bus only |
| UserService.UserServiceAdapter.Cache | src/daemon/dbus/gumd-dbus-user-service-adapter.c:479-508 | the peer is listed at the end and watched, and the list takes a hold if it was empty |
| UserService.UserServiceAdapter.LookUp | src/daemon/dbus/gumd-dbus-user-service-adapter.c:510-545 | the first adapter of the peer for the user that is not to be deleted |
| UserService.UserServiceAdapter.OnRequest | src/daemon/dbus/gumd-dbus-user-service-adapter.c:547-697 | each handler, found and not found, is bracketed by one keep and one release |

## Left out

- RunConsistent: for runs in which the file replacements succeed; RunUsers and RunGroups say of each pair of files which failures end the agreement.
- FindFreeId: asks that the search end, since otherwise there is no result; SearchGoesOn says exactly when it does not, and GidChoice and UidChoice ask the same of the searches they are about.
- RunSteady: handlers run to their end, one after the other; NameLostBalanced says what another interleaving breaks.
- RunOnceSound: for one non-zero timeout set once, on objects that do not outlive their timers; SetTimeoutSound and FireSound say exactly what the other cases break.
- Dispatched: whether the reference that goes is the last one is given by the caller; references are not counted.
- Error codes and messages: the operations return TRUE or FALSE.
- The line syntax of the files and glibc's record routines with their static buffers: files are sequences of records, a NULL string is an empty field, and a write may fail at any record.
- Reading: lookups open their file, and a missing group file or passwd file is not modelled.
- Secrets: encryption and comparison are given by the environment; the MD5 digest is any string of 32 hexadecimal digits.
- The separator of packed strings is the comma, the only one the daemon uses.
- Home directories, skeleton files, SMACK labels, ownership, user-info key files and hook scripts: of these only the home directory's success and the icon's change matter to the result.
- The loading of group objects by gid and name as methods of their own: they are events of `Runs`, and differ from the user ones in no step.
- The group service on the bus, which follows the same protocol as the user service.
- Requests that only read: lists of users, ids by name, user types as string lists, and the regular-expression variant of the string validator.
- GObject properties and the counting of references.
- The daemon's cache of user objects, the D-Bus servers, the client library, the command line and the configuration parser.
- Builds with ENABLE_TESTS, in which the lock does nothing.
