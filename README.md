# simpleacl in Dafny

A model of `simpleacl.py`, the layer of gad that eases working with POSIX.1e
access control lists (the ACL model of the withdrawn IEEE 1003.1e draft 17,
section 23) through the posix1e bindings. The model proves what the layer
promises about its state.

The model covers four parts:

- the two permission-bit helpers, `permset_bits` and `bits_as_permarray`;
- `SimpleAclEntry`, which changes an entry's permissions and marks its ACL
  modified only when a permission is added or removed;
- `SimpleAcl`, which has find-or-create lookups, filtering of named users
  and groups, reconciliation with the mask entry, and mask recomputation;
- the `apply` of `SimpleAccessAcl` and `SimpleDefaultAcl`, which validates
  and then commits.

The project has four files:

- `wrappers.dfy` holds `Option` and `Outcome`. `Outcome` carries a raised
  exception as data.
- `perm_bits.dfy` (module `PermBits`) holds the permissions and their values
  (ACL_READ = 4, ACL_WRITE = 2, ACL_EXECUTE = 1). It has Python's
  unbounded two's complement integers: bit k of `x` is `(x / 2^k) % 2`,
  `~x` is `-x - 1` and `b & 7` is `b % 8`. It also has both conversions,
  their loops and their round trips.
- `acl_entries.dfy` (module `AclEntries`) holds entries as values
  (`AclEntry(tag, qualifier, perms)`). It also has the functions that
  specify each operation on the list of entries of one ACL, and the lemmas
  about those functions.
- `simple_acl.dfy` (module `Simpleacl`) holds the classes:
  - the provider's entry objects (`RawEntry`), changed in place;
  - `SimpleAclEntry`, with its `acl` and `entry` references;
  - `SimpleAcl`, whose `entries` field is the provider's live entry list and
    whose `modified` field is the flag;
  - the two path ACLs and the stored ACLs of the file system.

  The methods of `SimpleAcl` are proved against the functions of
  `AclEntries` through `View()`, the states of the entries in order. The
  permission methods of `SimpleAclEntry` (`GetPermbits`, `SetPermbits`,
  `FixPerms`, `SetPerms`) are proved against the entry's own `permset`. `Valid()` says that the
  provider's list holds each entry object once.

## Model

| member | source | states |
|---|---|---|
| PermBits.Bits | simpleacl.py:30-35 | the mask of a permission set is below 8 and has the bit of a permission set exactly when the permission is a member |
| PermBits.PermsetBits | simpleacl.py:30-35 | the loop over R, W, X that ORs in each member's bit returns `Bits` of the permission set |
| PermBits.PermArray | simpleacl.py:37-42 | the list for a mask holds exactly the permissions whose bit is set, in the order R, W, X, each once |
| PermBits.BitsAsPermarray | simpleacl.py:37-42 | the loop over R, W, X that appends each permission whose bit is set returns `PermArray` of the mask |
| PermBits.PermArrayOfBits | simpleacl.py:30-42 | round trip: the list of the mask of a permission set is exactly its members in the order R, W, X |
| PermBits.PermArrayLowBits | simpleacl.py:37-42 | the list of any integer, negative ones included, depends on its low three bits only |
| PermBits.HasBit | simpleacl.py:40 | `bits & perm` is non-zero exactly when the permission's bit is set, which depends on the low three bits of `bits` only |
| PermBits.Complement | simpleacl.py:217 | `~x` has the opposite sign of `x`, and its low three bits are those of `x` flipped |
| PermBits.ComplementFlips | simpleacl.py:217 | `~m` has a permission's bit exactly when `m` lacks it, for every integer `m` |
| PermBits.ForbiddenByMask | simpleacl.py:217 | the list made from `~mask` holds exactly the permissions the mask lacks, so no truncation of `~mask` is needed |
| PermBits.BitsOfPermArray | simpleacl.py:55-59 | setting the permissions from a mask and reading the mask back gives `b & 7` |
| AclEntries.FixedPerms | simpleacl.py:61-69 | after `fix_perms` every forbidden permission is absent, every required one that is not also forbidden is present, and the others are untouched |
| AclEntries.FixChangesExactly | simpleacl.py:61-69 | when the two lists do not overlap, `fix_perms` marks the ACL modified exactly when the set changes, and a repeated call changes nothing |
| AclEntries.FixChanges | simpleacl.py:61-69 | when `fix_perms` leaves `modified` alone the set is unchanged; when it sets `modified` the set changed or some permission was both required and forbidden |
| AclEntries.FixOverlapMarksModified | simpleacl.py:61-69 | with a permission both required and forbidden, `modified` is set whatever the set held, and the permission ends absent |
| AclEntries.FixOverlapCanEndUnchanged | simpleacl.py:61-69 | witness: such a call can leave the set exactly as it was while still setting `modified` |
| AclEntries.Matches | simpleacl.py:131-132 | an entry is accepted exactly when it has that tag and that qualifier, whatever its permissions, and a filter listing that qualifier keeps it |
| AclEntries.FirstMatch | simpleacl.py:129-134 | the index `_get_entry` stops at is the first entry with that tag and qualifier; none exactly when no entry matches |
| AclEntries.FirstOfTag | simpleacl.py:154-158 | the index `_get_entry_obj` stops at is the first entry of the tag; none exactly when no entry has it |
| AclEntries.FirstMatchAppend | simpleacl.py:139-151 | appending keeps an existing first match, and a matching appended entry becomes the first match otherwise |
| AclEntries.FirstOfTagAppend | simpleacl.py:160-182 | the same for the first entry of a tag |
| AclEntries.Filtered | simpleacl.py:185-191 | the filtered list is no longer than the list, and every entry in it is from the list and is not one the filter deletes |
| AclEntries.FilteredKeepsAllowed | simpleacl.py:185-191 | every entry the filter does not target stays |
| AclEntries.Disallowed | simpleacl.py:187-188 | an entry is deleted only if it has the tag, and then exactly when it has no qualifier or its qualifier is not listed |
| AclEntries.FilteredOwnTag | simpleacl.py:185-191 | the entries of the filtered tag that stay are the allowed ones among that tag's entries, in their prior relative order |
| AclEntries.FilteredOtherTags | simpleacl.py:185-191 | the entries of every other tag stay, all of them and in their prior relative order |
| AclEntries.FilteredUnchanged | simpleacl.py:185-191 | filtering changes the list exactly when some entry is to be deleted, so a repeated filter changes nothing |
| AclEntries.FilteredShorter | simpleacl.py:185-191 | filtering shortens the list exactly when some entry is to be deleted |
| AclEntries.Unmasked | simpleacl.py:223-225 | the entries reconciled are exactly those tagged USER, GROUP or GROUP_OBJ |
| AclEntries.MaskedEntry | simpleacl.py:221-227 | one reconciled entry keeps its tag and qualifier, loses permissions only, is unchanged when its tag is left alone, and otherwise holds no forbidden permission |
| AclEntries.Masked | simpleacl.py:220-227 | reconciling keeps the length, and each entry keeps its tag and qualifier and loses permissions only |
| AclEntries.Recalculated | simpleacl.py:211-227 | `recalc_to_mask` keeps the length, the position of the first mask entry, every tag and qualifier, loses permissions only, and changes nothing without a mask entry |
| AclEntries.ForbiddenBy | simpleacl.py:217 | the permissions forbidden by a mask are exactly those it lacks, in the order R, W, X |
| AclEntries.PartlyMasked | simpleacl.py:220-227 | part way through the loop the list keeps its length, every tag and qualifier, loses permissions only, and the unvisited entries are as they were; before the first iteration it is the list itself |
| AclEntries.PartlyMaskedStep | simpleacl.py:220-226 | one more iteration of the reconciliation loop changes entry `i` alone, and the list then differs from the original exactly when it did before or entry `i` changed |
| AclEntries.PartlyMaskedDone | simpleacl.py:212-227 | after the loop has visited every entry, the list is the one reconciled with the first mask entry |
| AclEntries.MaskedIsIntersection | simpleacl.py:212-227 | reconciliation leaves each entry other than MASK, USER_OBJ and OTHER with its permissions intersected with the mask (GROUP_OBJ included), and leaves those three unchanged |
| AclEntries.FullMaskChangesNothing | simpleacl.py:199-227 | a mask granting read, write and execute changes no entry |
| AclEntries.MaskedLossy | simpleacl.py:199-210 | reconciliation is lossy: reconciling again with another mask is reconciling once with the intersection of both, so widening the mask brings nothing back |
| AclEntries.RecalculatedIdempotent | simpleacl.py:199-227 | `recalc_to_mask` twice is `recalc_to_mask` once |
| AclEntries.WithMask | simpleacl.py:178-182 | `get_mask` leaves a list with a mask entry: the same list when it had one, otherwise the list with an empty mask entry appended |
| AclEntries.AutoMasked | simpleacl.py:233 | the provider's recomputation writes the automatic permissions into the first mask entry, which stays first and keeps its tag and qualifier, and leaves every other entry unchanged |
| AclEntries.BitsInjective | simpleacl.py:232-237 | the mask bits before and after differ exactly when the mask permission sets differ |
| Simpleacl.RawEntry.constructor | simpleacl.py:124-125 | a new provider entry has the tag, no qualifier and no permissions |
| Simpleacl.SimpleAclEntry.constructor | simpleacl.py:48-50 | the wrapper refers to its ACL and its provider entry |
| Simpleacl.SimpleAclEntry.GetPermbits | simpleacl.py:55-56 | returns the mask of the entry's permission set |
| Simpleacl.SimpleAclEntry.SetPermbits | simpleacl.py:58-59 | the set afterwards holds exactly the permissions whose bit is set, reads back as `bits & 7`, and `modified` is set exactly when the set changed |
| Simpleacl.SimpleAclEntry.FixPerms | simpleacl.py:61-69 | the set afterwards is `FixedPerms` of the old one, and `modified` is set exactly when a permission was added or deleted |
| Simpleacl.SimpleAclEntry.SetPerms | simpleacl.py:71-80 | the set afterwards holds exactly the listed permissions, and `modified` is set exactly when the set changed, so a repeated call changes nothing |
| Simpleacl.IndexOf | simpleacl.py:83 | the place `delete_entry` removes the entry object from: the first position holding it |
| Simpleacl.Kept | simpleacl.py:185-191 | the entry objects `_filter_entries` keeps are among those it visits |
| Simpleacl.SimpleAclEntry.Delete | simpleacl.py:82-84 | the provider removes this entry object from its place in the ACL and nothing else, the object is gone and each object still occurs once, and `modified` is set |
| Simpleacl.SimpleAclEntry.GetTagType | simpleacl.py:86-87 | reads the tag |
| Simpleacl.SimpleAclEntry.SetTagType | simpleacl.py:88-89 | writes the tag and leaves `modified` alone |
| Simpleacl.SimpleAclEntry.GetQualifier | simpleacl.py:92-93 | reads the qualifier |
| Simpleacl.SimpleAclEntry.SetQualifier | simpleacl.py:94-95 | writes the qualifier and leaves `modified` alone |
| Simpleacl.SimpleAclEntry.GetPermset | simpleacl.py:98-99 | reads the permission set |
| Simpleacl.SimpleAclEntry.SetPermset | simpleacl.py:100-101 | writes the permission set and leaves `modified` alone |
| Simpleacl.SimpleAcl.constructor | simpleacl.py:109-111 | wraps the provider's list unmodified |
| Simpleacl.SimpleAcl.Entries | simpleacl.py:116-118 | one wrapper per provider entry, in order, each referring to this ACL |
| Simpleacl.SimpleAcl.IsModified | simpleacl.py:120-121 | returns the flag |
| Simpleacl.SimpleAcl.CreateEntry | simpleacl.py:123-127 | appends a fresh entry of the tag with no qualifier and no permissions, keeps the other entries, and sets `modified` |
| Simpleacl.SimpleAcl.GetEntry | simpleacl.py:129-134 | returns the wrapper of the first entry with that tag and qualifier, or null exactly when there is none |
| Simpleacl.SimpleAcl.HasGroup | simpleacl.py:136-137 | true exactly when some entry is the named group |
| Simpleacl.SimpleAcl.GetGroup | simpleacl.py:139-144 | returns the first entry of the named group and changes nothing when there is one; otherwise appends an entry for the group and sets `modified`; afterwards the group is found and is the entry returned |
| Simpleacl.SimpleAcl.GetUser | simpleacl.py:146-151 | the same for the named user |
| Simpleacl.SimpleAcl.GetEntryObj | simpleacl.py:154-158 | returns the wrapper of the first entry of the tag, whatever its qualifier, or null exactly when there is none |
| Simpleacl.SimpleAcl.GetUserObj | simpleacl.py:160-164 | returns the first USER_OBJ entry and changes nothing, or appends one and sets `modified`; either way the entry returned is the first USER_OBJ entry afterwards |
| Simpleacl.SimpleAcl.GetGroupObj | simpleacl.py:166-170 | the same for GROUP_OBJ |
| Simpleacl.SimpleAcl.GetOther | simpleacl.py:172-176 | the same for OTHER |
| Simpleacl.SimpleAcl.GetMask | simpleacl.py:178-182 | the same for MASK; the list afterwards is `WithMask` of the old one and the entry returned is its first mask entry |
| Simpleacl.SimpleAcl.FilterEntries | simpleacl.py:185-191 | the entries afterwards are `Filtered` of the old ones, each object still occurs once and no new one appears, and `modified` is set exactly when some entry was deleted |
| Simpleacl.SimpleAcl.FilterStep | simpleacl.py:186-191 | one iteration keeps the loop's progress: the entries are the objects kept so far followed by the unvisited ones |
| Simpleacl.SimpleAcl.FilterVisit | simpleacl.py:187-191 | an entry of the tag whose qualifier is not listed is deleted and `modified` is set; any other entry stays with `modified` unchanged |
| Simpleacl.SimpleAcl.FilteredOutcome | simpleacl.py:185-191 | after the last iteration the entries show `Filtered` of the old states, each object occurs once, and `modified` records whether any entry was deleted |
| Simpleacl.SimpleAcl.FilterGroups | simpleacl.py:193-194 | filters the named groups down to `gids`, with the effect of `FilterEntries`: the view is `Filtered`, no new entry object appears, each object still occurs once, and `modified` is set exactly when some entry was deleted |
| Simpleacl.SimpleAcl.FilterUsers | simpleacl.py:196-197 | filters the named users down to `uids`, with the effect of `FilterEntries`: the view is `Filtered`, no new entry object appears, each object still occurs once, and `modified` is set exactly when some entry was deleted |
| Simpleacl.SimpleAcl.RecalcToMask | simpleacl.py:199-227 | the entries afterwards are `Recalculated` of the old ones (unchanged without a mask entry), and `modified` is set exactly when an entry changed |
| Simpleacl.SimpleAcl.RecalcStep | simpleacl.py:220-226 | one iteration advances the reconciliation by one entry and keeps `modified` in step with the change so far |
| Simpleacl.SimpleAcl.RecalcEntry | simpleacl.py:221-226 | entry `i` is reconciled with the forbidden permissions unless it is MASK, USER_OBJ or OTHER, and no other entry changes |
| Simpleacl.SimpleAcl.CalcMask | simpleacl.py:229-237 | the mask entry (created when missing) holds the provider's automatic mask afterwards, the entry objects are the old ones, followed by the fresh mask entry when one was created, the result is true exactly when the mask permissions changed, and `modified` is set by a created mask entry or a change |
| Simpleacl.SimpleAcl.RecomputeMask | simpleacl.py:232-234 | returns the mask bits before and after the provider's recomputation, which are equal exactly when the permission sets are; the entry objects are the old ones, followed by the fresh mask entry when one was created |
| Simpleacl.SimpleAcl.MaskBits | simpleacl.py:234 | reads the bits of the existing first mask entry and changes nothing |
| Simpleacl.SimpleAcl.ProviderCalcMask | simpleacl.py:233 | the provider writes its automatic mask of the entries into the first mask entry and changes nothing else |
| Simpleacl.SimpleAcl.IsValid | simpleacl.py:239-240 | returns the provider's verdict on the entries |
| Simpleacl.Filesystem.ApplyTo | simpleacl.py:260 | succeeds exactly when the provider accepts the path, and then replaces the stored ACL of that type at that path; otherwise nothing is stored |
| Simpleacl.ApplyAcl | simpleacl.py:256-261 | fails with InvalidAclError carrying the path and the ACL exactly when the ACL is invalid, and with the provider's error when the commit is refused, in both cases with `modified` and the stored ACLs unchanged; otherwise stores the ACL unless simulating and clears `modified` |
| Simpleacl.SimpleAccessAcl.constructor | simpleacl.py:246-249 | the access ACL of the path, as loaded, unmodified |
| Simpleacl.SimpleAccessAcl.Apply | simpleacl.py:256-261 | `apply` for the access ACL: refuses an invalid ACL, and fails when the provider refuses the commit, with `modified` and the stored ACLs unchanged either way; otherwise stores the entries as the path's access ACL unless simulating, and clears `modified` |
| Simpleacl.SimpleDefaultAcl.constructor | simpleacl.py:264-267 | the default ACL of the directory, as loaded, unmodified |
| Simpleacl.SimpleDefaultAcl.Apply | simpleacl.py:274-279 | the same as the access ACL's `apply`, for the path's default ACL |

## Left out

- posix1e is represented by its state only. Its ACL is the `entries` list and its entries are `RawEntry` objects. The automatic mask of `calc_mask` and the rules of `valid` are parameters: a function and a predicate. The stored ACLs of the paths, and the paths whose ACLs the provider refuses to write, are a `Filesystem`. Loading an ACL from a path is the list the constructors receive.
- `__str__`, `__repr__` and `log_dbg` are left out because they only format text or log.
- test.py is left out because it contains no logic of this layer.
- `_filter_entries` deletes through the provider while it iterates the provider's live list. How that iterator behaves after a deletion is part of posix1e and is not visible. The model iterates a snapshot of the list taken before the loop and deletes every disallowed entry. A live iteration that skips the entry after each deleted one would leave such an entry in place.
- Simpleacl.SimpleAcl.CreateEntry: the provider is taken to append a new entry at the end of its list with no qualifier and no permissions. posix1e's behaviour here is not visible.
- Simpleacl.SimpleAclEntry.Delete: requires the entry to still belong to its ACL. Deleting a foreign or already deleted entry raises inside posix1e, and that error is not modelled.
- Simpleacl.SimpleAcl.ProviderCalcMask: the provider's recomputation is taken to write only into the first mask entry.
- Simpleacl.SimpleAclEntry.SetPerms and Simpleacl.SimpleAclEntry.FixPerms: take lists of permission values. A list holding integers other than the three permission constants is not modelled.
- Simpleacl.SimpleAclEntry.GetPermset and SetPermset pass the permission set as a value. In posix1e `entry.permset` is a live handle into the entry, and simpleacl.py:64, 68, 75 and 79 change the entry through it. A caller can therefore change the entry through the handle `get_permset` returns (simpleacl.py:98-99) without setting `modified`; the model has no such handle.
- Simpleacl.SimpleAclEntry.SetQualifier: takes an integer id. An id that posix1e would reject is not modelled.
- Subclassing is modelled by composition. `SimpleAccessAcl` and `SimpleDefaultAcl` hold their `SimpleAcl` in an `acl` field instead of inheriting from it. `InvalidAclError` therefore carries the path and that `SimpleAcl`, which together are the path ACL `apply` raises it with.
- Simpleacl.ApplyAcl: a refused commit is modelled by the path alone (`Filesystem.refused`). Other causes of an `applyto` error, and the exception's own contents, are not.
- Simpleacl.SimpleAccessAcl.constructor and Simpleacl.SimpleDefaultAcl.constructor: loading the ACL from the path (simpleacl.py:248, 266) can raise inside posix1e. That failure is not modelled: the constructors receive the loaded list.
- The default arguments of `fix_perms`, `set_perms`, `filter_groups`, `filter_users` and `apply` (`simulate = False`, simpleacl.py:256 and 274) are not modelled. Callers pass every argument explicitly: the lists empty and `simulate` false when defaulted.
