# PageEditLockFields — a verified model of the lock store

ProcessWire's PageEditLockFields module lets an editor lock individual fields
of one page, and five of its properties (name, template, parent, status,
delete), against editing. A lock is a record `(pages_id, fields_id, flags)` in
the table `page_edit_lock_fields`, whose primary key is the pair. Properties
are stored under negative field ids: -1 name, -2 template, -3 parent_id,
-4 status, -5 delete_page.

The model covers:

- **The lock store.** The class `LockStore.PageEditLockFields` holds the table
  (a map from key to flags) and the two per-page caches the module keeps over
  it: `locksCache` (field id => field name) and `locksFlags` (field id =>
  flags). Its methods are the public API: `getLocks`, `getAllLocks`,
  `isLocked`, `addLock`, `addLocks`, `removeLock`, `removeAllLocksForPage`,
  `removeAllLocksForField`, `removeAllLocksForFieldInFieldgroup` and
  `getLockFlags`. Each one states its new table and caches. All of them keep
  the cache invariant `Valid()`: both caches hold the same pages, and every
  cached page equals what the table says about it.
- **Identifier translation** (`Identifiers`).
  - `fieldId` turns a Field object, an integer, a numeric string, a property
    name or an alternate property name into the stored id; 0 means "not found".
  - `fieldName` turns an id back into a name.
  - `pageId` and `formFieldName` are modelled too.
  - The PHP conversions these rely on are in `PhpValues`: `ctype_digit`, the
    `(int)` cast, `explode`, `empty`.
- **Permission** (`Permission.HasPermission`). With no allow-list, the user's
  `page-lock` permission decides. Otherwise the user's id must equal some
  entry of the list, cast to an integer.
- **Locking an Inputfield** (`Inputfields`): the collapsed-state rule of
  `lockInputfield`, including the `lockAdjustments` table.
- **The hooks** (`Hooks`), each a method over the store:
  - the page-list status-action veto;
  - the move and front-end edit vetoes;
  - removing locks when a page is deleted or a field leaves a fieldgroup;
  - copying locks to a cloned page;
  - replacing a page's locks from the editor form;
  - locking the editor's Inputfields.
- **Worked scenarios** (`Scenarios`): add then query, add twice, remove twice,
  clear then query, a fieldgroup removal that stays within its templates, and
  page 42 locked on `status` and `title`.

The host framework appears only through parameters:
- The field registry is a `seq<Field>`, searched first match wins.
- A page's template is the map `templateOf`.
- A fieldgroup is the sequence of its templates' ids.
- `$pages->getPath` is a function `pathOf`.
- The request state is passed in: the user's id and `page-lock` permission,
  whether `$_POST` is empty, the module's toggles and `renderInputsFor`.

Two behaviours of the code differ from what one might expect of it:

- **Field id 0.** One might expect id 0, "not found", never to be stored.
  The code stores whatever `fieldId` returns, so `addLock` with an unknown
  name stores a lock on id 0 (`Hooks.BlankNameIsFieldZero` shows one
  consequence).
- **Cloning.** One might expect a clone to get its original's locks. The code
  re-resolves the lock *names*, so only ids that survive the round trip
  through their name are copied. An id whose field is no longer registered
  has a blank name, which the copy stores as id 0
  (`Identifiers.UnregisteredBecomesZero`). Flags are not copied.

## Model

| member | source | states |
|---|---|---|
| PhpValues.IntCast | PageEditLockFields.module.php:846 | the `(int)` cast of a digit string is its decimal value, and of `-` or `+` followed by digits, that value negated or as is |
| PhpValues.Explode | PageEditLockFields.module.php:712 | `explode(' ', ...)` yields at least one piece and no piece contains a space |
| PhpValues.ImplodeExplode | PageEditLockFields.module.php:712 | joining the pieces with single spaces gives back the configured string |
| PhpValues.ExplodeImplode | PageEditLockFields.module.php:712 | pieces without spaces, joined with single spaces, split back into exactly those pieces |
| PhpValues.DigitPrefix | PageEditLockFields.module.php:846 | the digits the cast reads are the longest digit prefix |
| PhpValues.TrimLeadingSpace | PageEditLockFields.module.php:846 | the cast skips exactly the leading white space: everything skipped is white space and what is left does not start with any |
| Host.FindByName | PageEditLockFields.module.php:830-831 | a field found by name is registered under that name; none is found only when no field has it |
| Host.FindById | PageEditLockFields.module.php:849-850 | a field found by id is registered with that id; none is found only when no field has it |
| Host.FindByIdFirst | PageEditLockFields.module.php:849-850 | when several fields share an id, the lookup returns the first of them |
| Host.FindOwnField | PageEditLockFields.module.php:830-831 | in a registry with unique ids and names, each field is found by its own name and its own id |
| Identifiers.PropertyId | PageEditLockFields.module.php:37-43 | a non-zero result is the id listed for that property name; 0 only for a name that is no property |
| Identifiers.FieldId | PageEditLockFields.module.php:822-834 | a negative id a reference resolves to is always one of the five property ids (further facts: the lemmas below) |
| Identifiers.IdName | PageEditLockFields.module.php:843-850 | a property id gives its property name; another negative id gives blank; a registered non-negative id gives the name of the first field registered with it, any non-blank result is such a name, and an unregistered id gives blank |
| Identifiers.FieldIdRange | PageEditLockFields.module.php:822-834 | a negative field id is always a property id; a positive id for a non-numeric name belongs to a registered field of that name |
| Identifiers.PropertyRoundTrip | PageEditLockFields.module.php:825-828 | each property id resolves to itself as an integer, and from its name; naming it gives the canonical property name |
| Identifiers.AlternateNames | PageEditLockFields.module.php:51-55 | `templates_id`/`template_id` resolve to -2 and `parent` to -3; their names are the canonical ones |
| Identifiers.FieldRoundTrip | PageEditLockFields.module.php:823-831 | a registered field with a plain name round-trips through its name, and its object and name resolve to the same id |
| Identifiers.UnknownNameIsZero | PageEditLockFields.module.php:833 | a name that is not digits, not a property and not registered resolves to 0 |
| Identifiers.DigitStringIsId | PageEditLockFields.module.php:824 | a digit string resolves to the number it spells |
| Identifiers.FieldName | PageEditLockFields.module.php:843-856 | property ids give their names; other negative ids give blank; a registered non-negative id gives the name of the first field registered with it, an unregistered one blank; a Field gives its name; a plain name not starting with `-` is returned unchanged |
| Identifiers.RoundTripping | PageEditLockFields.module.php:822-856 | property ids and ids of registered plain-named fields survive id -> name -> id |
| Identifiers.UnregisteredBecomesZero | PageEditLockFields.module.php:849-850 | an unregistered positive id has a blank name and comes back as 0, so it does not round-trip |
| Identifiers.PageId | PageEditLockFields.module.php:877-882 | a Page gives its id, an integer itself, a digit string the number it spells, any other string or null 0; only an integer can give a negative id |
| Identifiers.FormFieldName | PageEditLockFields.module.php:865-868 | exactly `name` (and `_pw_page_name` itself) map to `_pw_page_name`; every other name is unchanged |
| Identifiers.FormFieldNameInjective | PageEditLockFields.module.php:865-868 | two different lock names never land on the same form input |
| LockStore.LockedIdsMember | PageEditLockFields.module.php:509-514 | a field is among a page's locks iff the table holds their pair |
| LockStore.PageRowsFrame | PageEditLockFields.module.php:450 | the rows `SELECT ... WHERE pages_id=:pid` returns depend only on that page's records |
| LockStore.PageFlagsMember | PageEditLockFields.module.php:458 | the flags cache of a page holds exactly its records' flags |
| LockStore.OtherPagesUnchanged | PageEditLockFields.module.php:539 | a change confined to one page leaves every other page's locks and flags unchanged, so keeping their cache entries is sound |
| LockStore.PageRowsCount | PageEditLockFields.module.php:612 | a page has as many records as locked field ids |
| LockStore.ZeroLocksCount | PageEditLockFields.module.php:557-569 | `addLocks` inserts one zero-flag record per new id, so its count is the number of records it added |
| LockStore.ClearedPage | PageEditLockFields.module.php:603-613 | deleting a page's records removes as many records as it has locked ids, leaves it no locks, and keeps every other page's locks and flags |
| LockStore.LocksAfterInsert | PageEditLockFields.module.php:524-541 | after inserting a lock, the page's locks are the old ones plus the new field under its name |
| LockStore.LocksAfterDelete | PageEditLockFields.module.php:582-593 | after deleting a lock, the page's locks are the old ones without it |
| LockStore.LockedAfterAddLocks | PageEditLockFields.module.php:553-572 | after `addLocks` the page is locked on its old ids plus every id the references resolve to |
| LockStore.ClonedLocks | PageEditLockFields.module.php:217-222 | `Cloned`, the table `hookPagesCloned` leaves: the clone is locked on its old ids plus what its original's lock names resolve to; when those ids round-trip, on exactly the original's ids; every existing record keeps its flags and every new one has flags 0, since flags are not copied; other pages keep their rows |
| LockStore.ReplacedLocks | PageEditLockFields.module.php:418-423 | `Replaced`, the table the form replacement leaves: the page is locked on exactly the submitted names' ids, all with flags 0; other pages keep their rows |
| LockStore.FieldgroupScoped | PageEditLockFields.module.php:642-672 | a record is deleted iff it is the field's and its page's template is one of the fieldgroup's |
| LockStore.CachesHit | PageEditLockFields.module.php:446 | a cached page holds what the table says of it, so the cache hit returns the same value as a reload |
| LockStore.DroppedAgrees | PageEditLockFields.module.php:804-813 | after a change confined to one page, `resetCache` of that page (of every page for a falsy one) leaves caches that agree with the table everywhere |
| LockStore.InventoryStep | PageEditLockFields.module.php:481-494 | reporting the least pending page keeps the inventory sorted, complete up to the pending pages, and exact for each page |
| LockStore.PageEditLockFields.ResetCache | PageEditLockFields.module.php:804-813 | the caches become `Dropped(old, page)`; the table is unchanged; the invariant holds |
| LockStore.PageEditLockFields.GetLocks | PageEditLockFields.module.php:444-463 | the result equals the page's records, id => name, whether it was cached or not; the page's entries in both caches become the table's view |
| LockStore.PageEditLockFields.LoadPage | PageEditLockFields.module.php:447-459 | the row loop gives exactly the page's names and fills its flags cache with exactly its records' flags |
| LockStore.PageEditLockFields.IsLocked | PageEditLockFields.module.php:509-514 | true iff (page id, field id) is in the table; the page is now cached |
| LockStore.PageEditLockFields.AddLock | PageEditLockFields.module.php:524-541 | succeeds iff the pair was absent, and then stores it with the flags; otherwise nothing changes; the page's cache entries are reset |
| LockStore.PageEditLockFields.AddLocks | PageEditLockFields.module.php:553-572 | the table gains a zero-flag record for each resolved id not locked before; the count is exactly how many were new |
| LockStore.PageEditLockFields.InsertZeroLocks | PageEditLockFields.module.php:561-569 | the insert loop counts the ids that were neither locked nor repeated |
| LockStore.PageEditLockFields.RemoveLock | PageEditLockFields.module.php:582-593 | reports true iff the pair was stored; the pair is gone; the cache is reset by integer page id, so page 0 clears every page |
| LockStore.PageEditLockFields.RemoveAllLocksForPage | PageEditLockFields.module.php:603-613 | exactly the page's records are deleted; the count is how many it had; the page has no locks left |
| LockStore.PageEditLockFields.RemoveAllLocksForField | PageEditLockFields.module.php:622-632 | exactly the field's records on every page are deleted, counted, and every cache is cleared |
| LockStore.PageEditLockFields.GetLockFlags | PageEditLockFields.module.php:682-690 | the stored flags of the lock, or 0 when there is none |
| LockStore.PageEditLockFields.RemoveAllLocksForFieldInFieldgroup | PageEditLockFields.module.php:642-672 | exactly the field's records on the fieldgroup's templates' pages are deleted and counted; with none, it returns 0 and keeps the caches; otherwise it clears them |
| LockStore.PageEditLockFields.FieldgroupRows | PageEditLockFields.module.php:650-658 | the rows collected over all templates are exactly the fieldgroup's records of the field |
| LockStore.PageEditLockFields.DeleteRows | PageEditLockFields.module.php:661-669 | deleting the collected rows removes exactly those records and adds up to their number |
| LockStore.PageEditLockFields.PageNames | PageEditLockFields.module.php:481-494 | a page's entry in the inventory holds exactly its locks, id => name |
| LockStore.PageEditLockFields.GetAllLocks | PageEditLockFields.module.php:471-499 | one entry per locked page, in ascending page id, each with its path and exactly its locks |
| Permission.HasPermission | PageEditLockFields.module.php:705-721 | without an allow-list, the `page-lock` permission decides; with one, true iff some entry cast to an integer equals the user's id |
| Permission.FindUser | PageEditLockFields.module.php:714-718 | the loop over the entries finds the user iff some entry, cast to an integer, equals the user's id |
| Permission.ListedUserGranted | PageEditLockFields.module.php:712-718 | a user whose id is any piece of the space-separated allow-list (the only one, the first, the last or in between) is granted, unless the whole string is "0", which `empty()` reads as no list |
| Inputfields.LockedUnlessRendered | PageEditLockFields.module.php:740-750 | a field that does not keep rendering its inputs always ends in a locked state, except an ajax-loaded one |
| Inputfields.RenderedNotLocked | PageEditLockFields.module.php:742-745 | a field kept rendering is never put in a locked state, and without `minimize` it is left as it is |
| Inputfields.LockTwice | PageEditLockFields.module.php:82-89 | locking twice changes nothing more, except Blank: BlankLocked is missing from the table, so the second lock gives NoLocked |
| Inputfields.LockCollapsed | PageEditLockFields.module.php:740-750 | the corrected rule: only an ajax-loaded field ends ajax; every other field that does not keep rendering ends locked; a rendered field without `minimize` keeps its state |
| Inputfields.RenderInputs | PageEditLockFields.module.php:732-738 | inputs are rendered exactly on a request that posts nothing, for the configured fields |
| Inputfields.LockInputfield | PageEditLockFields.module.php:729-750 | only the collapsed state changes; a field that is not rendered and not ajax-loaded ends locked, always so on a posting request; an ajax-loaded field follows the corrected call (see Findings) and keeps its state; a rendered field without `minimize` is returned unchanged |
| Inputfields.AjaxCallFails | PageEditLockFields.module.php:741 | the ajax branch as written fails with an ArgumentCountError |
| Inputfields.AjaxCallCorrected | PageEditLockFields.module.php:773-788 | with the argument passed, only the ajax state stays ajax, and every other unrendered state is locked |
| Hooks.HookPageListProcessAction | PageEditLockFields.module.php:230-245 | a failure reply replaces the action iff it is one of the eight status actions and the page's `status` is locked |
| Hooks.HookPageMoveable | PageEditLockFields.module.php:195-198 | a page is moveable iff it was and its `parent_id` is not locked |
| Hooks.HookPageEditable | PageEditLockFields.module.php:180-187 | a non-editable page stays so; a question that is not a Field or a name is left alone; otherwise editable iff that name's id is not locked, and the page is then cached |
| Hooks.BlankNameIsFieldZero | PageEditLockFields.module.php:829-833 | a blank name resolves to field id 0 |
| Hooks.HookPagesDeleted | PageEditLockFields.module.php:206-209 | the deleted page loses exactly its records |
| Hooks.HookFieldRemoved | PageEditLockFields.module.php:166-170 | the field loses exactly its records on pages of the fieldgroup's templates |
| Hooks.NameRefsOfLocks | PageEditLockFields.module.php:220-221 | the names handed to `addLocks` resolve to the clone ids of the original's locks |
| Hooks.HookPagesCloned | PageEditLockFields.module.php:217-222 | the new table is `Cloned(...)` (see `LockStore.ClonedLocks`); the original is cached, and the copy's cache entry is reset when locks were copied |
| Hooks.LockNames | PageEditLockFields.module.php:411 | the list has one entry per lock: a witness list of distinct lock ids, covering every lock, gives the lock each entry is the name of |
| Hooks.HookBeforeProcessInput | PageEditLockFields.module.php:401-429 | replacement only on the top-level form with the setting changed by a permitted user; it surely happens when the submitted names differ as a set; without it the table is unchanged; with it the table is `Replaced(...)`; the page is cached on every path past the level check, and a replacement drops it again |
| Hooks.ReplaceLocks | PageEditLockFields.module.php:420-421 | removing all of the page's locks and adding the submitted names leaves `Replaced(...)`, with the caches reset twice |
| Hooks.HitsAdd | PageEditLockFields.module.php:279-284 | one more lock adds one hit to its own form input and none elsewhere |
| Hooks.HookAfterBuildForm | PageEditLockFields.module.php:273-285 | the form keeps its inputs; each input is locked once per page lock that names it, and the others are untouched; an ajax-loaded input follows the corrected call (see Findings); the page is now cached |
| Hooks.LockFormInputs | PageEditLockFields.module.php:279-284 | the loop over the locks, for any per-input lock step, gives exactly that form: each input locked once per lock naming it |
| Hooks.LockStep | PageEditLockFields.module.php:281-283 | each loop step keeps "locked once per lock read so far" |
| Hooks.LockedOnce | PageEditLockFields.module.php:865-868 | with distinct lock names, none `_pw_page_name`, each named input is locked exactly once |
| Hooks.HookFieldGetInputfield | PageEditLockFields.module.php:256-263 | the Inputfield is locked iff the field is locked on the page; an ajax-loaded Inputfield follows the corrected call (see Findings); the page is now cached |
| Scenarios.AddThenQuery | PageEditLockFields.module.php:509-541 | after `addLock`, `isLocked` holds and `getLocks` lists the field under its name |
| Scenarios.AddTwice | PageEditLockFields.module.php:524-541 | adding the same lock twice stores one record, and the second insert fails |
| Scenarios.RemoveTwice | PageEditLockFields.module.php:582-593 | a second removal finds nothing, and the lock is gone |
| Scenarios.ClearThenGetLocks | PageEditLockFields.module.php:603-613 | after `removeAllLocksForPage`, `getLocks` is empty |
| Scenarios.FieldgroupRemovalScoped | PageEditLockFields.module.php:646-649 | the field's lock on a fieldgroup page goes; its lock on a page of another template stays |
| Scenarios.Page42Ids | PageEditLockFields.module.php:822-856 | in the example registry `status` is -4 and `title` is 7, and back |
| Scenarios.Page42Locks | PageEditLockFields.module.php:444-463 | page 42 with two locks lists `status` and `title` |
| Scenarios.Page42 | PageEditLockFields.module.php:230-245 | page 42's locks are {-4: status, 7: title}; a status action on it is refused; on unlocked page 43 it passes |

## Left out

- SQL, PDO and database errors: the table is a map keyed by (pages_id, fields_id). The only insert failure modelled is the duplicate key; `addLock` logging the error message is not modelled.
- Column ranges: `pages_id` and `flags` are UNSIGNED 32-bit and `fields_id` is signed 32-bit. The model uses unbounded integers, so a negative page id or out-of-range flags are stored as given.
- `install`/`uninstall` (the table's DDL), `ready()` (hook registration and the page-editor-only conditions), `hookBuildFormSettings` and the module configuration form (`config.php`): these are markup and wiring, not lock semantics.
- The markup `lockInputfield` adds (wrap classes, the lock note) and the JavaScript (`PageEditLockFields.js`): presentation only.
- Inputfields.LockInputfield, Hooks.HookAfterBuildForm, Hooks.HookFieldGetInputfield: these follow the corrected ajax branch (see Findings); as written, a locked Inputfield in state `collapsedYesAjax` makes the source throw at line 741, which these members do not model.
- Inputfields.LockCollapsed: the two hooks the corrected ajax branch installs (render in value mode, skip `processInput`) are not modelled. The ajax state is kept, and the blocked input is not represented.
- Hooks.HookBeforeProcessInput: the order of `array_values($locks)` follows the database's row order, which is not modelled. The contract therefore promises a replacement only when the submitted names differ as a set. PHP's loose `!=` on numeric-string names is compared exactly.
- Hooks.HookBeforeProcessInput: `processInput`, `resetTrackChanges` and removing the setting from the form are taken as the inputs `hasSetting`, `changed` and `value`.
- Hooks.HookPageListProcessAction: the reply's translated message text is left out of `ActionReply`.
- Inputfields.RenderInputs: `in_array` is compared exactly on integer ids, not PHP's loose comparison; `hasToggle('minimize')` is the boolean `LockConfig.minimize`.
- PhpValues.IntCast: exponent and hexadecimal forms, and overflow to PHP's integer limits, are not modelled; the cast reads sign and digits only.
- Identifiers.PageId: a float or boolean page reference is not modelled; references are Page objects, integers, strings or null.
- LockStore.PageEditLockFields.GetAllLocks: `$pages->getPath` is the parameter `pathOf`; the result is a sequence in ascending page id rather than a PHP array keyed by page id.
- Row order within a page is not modelled: the caches are maps and the rows a set.

## Findings

| source | as written | input that shows it | evidently intended | confidence | as-written member | corrected member |
|---|---|---|---|---|---|---|
| PageEditLockFields.module.php:741 | `lockInputfield` calls `lockAjaxInputfield($f)` with one argument. The callee (line 773) declares two parameters, `$renderInputs` without a default, so PHP 7.1 and later throw an ArgumentCountError. | a locked field whose Inputfield has collapsed state `collapsedYesAjax` | pass `$renderInputs` along, as the callee's signature and its use at line 774 require | high, not executed | Inputfields.LockCollapsedAsWritten (Inputfields.AjaxCallFails) | Inputfields.LockCollapsed (Inputfields.AjaxCallCorrected) |
