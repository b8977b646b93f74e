/**
  The decisions the module takes when the host framework calls its hooks: the
  page-list, move and front-end edit vetoes, the clean-up after a page is
  deleted or a field leaves a fieldgroup, the copy of locks to a cloned page,
  the replacement of a page's locks from the editor form, and the locking of
  Inputfields. Each hook is a method over the lock store; the hook event's
  arguments are its parameters and the value it sets as the hook's return is
  its result.
 */
module Hooks {
  import opened Wrappers
  import opened Host
  import opened Identifiers
  import opened LockStore
  import opened Inputfields
  import opened Permission

  /** The page-list actions that change a page's status. */
  const StatusActions: set<string> := {"pub", "unpub", "hide", "unhide", "lock", "unlock", "trash", "restore"}

  /** The reply that replaces a vetoed page-list action (its message text aside). */
  datatype ActionReply = ActionReply(action: string, success: bool, updateItem: int, remove: bool, refreshChildren: bool)

  /** `hookPageListProcessAction`: a status action on a page whose `status`
      property is locked is replaced by a failure reply; anything else passes
      through (None). */
  method HookPageListProcessAction(store: PageEditLockFields, pageId: nat, action: string)
    returns (reply: Option<ActionReply>)
    requires store.Valid()
    modifies store
    ensures store.Valid() && store.table == old(store.table)
    ensures reply.Some? <==> action in StatusActions && (pageId, -4) in store.table
    ensures reply.Some? ==> reply.value == ActionReply(action, false, 0, false, false)
    ensures action !in StatusActions ==>
              store.locksCache == old(store.locksCache) && store.locksFlags == old(store.locksFlags)
    ensures action in StatusActions ==>
              store.locksCache == old(store.locksCache)[pageId := PageLocks(store.fields, store.table, pageId)]
              && store.locksFlags == old(store.locksFlags)[pageId := PageFlags(store.table, pageId)]
  {
    if action !in StatusActions {
      return None;
    }
    PropertyRoundTrip(store.fields, -4);
    var locked := store.IsLocked(PageObj(pageId), NameRef("status"));
    if !locked {
      return None;
    }
    reply := Some(ActionReply(action, false, 0, false, false));
  }

  /** `hookPageMoveable`: a page whose `parent_id` property is locked cannot be moved. */
  method HookPageMoveable(store: PageEditLockFields, pageId: nat, moveable: bool) returns (r: bool)
    requires store.Valid()
    modifies store
    ensures store.Valid() && store.table == old(store.table)
    ensures r <==> moveable && (pageId, -3) !in store.table
    ensures store.locksCache == old(store.locksCache)[pageId := PageLocks(store.fields, store.table, pageId)]
    ensures store.locksFlags == old(store.locksFlags)[pageId := PageFlags(store.table, pageId)]
  {
    PropertyRoundTrip(store.fields, -3);
    var locked := store.IsLocked(PageObj(pageId), NameRef("parent_id"));
    r := if locked then false else moveable;
  }

  /** What `Page::editable` is asked about: a Field, a name, or anything else
      (no argument, an integer). */
  datatype FieldArg = ArgField(field: Field) | ArgName(name: string) | ArgOther

  /** The name the edit veto looks up: a Field is looked up by its name. */
  function AskedName(arg: FieldArg): string
    requires !arg.ArgOther?
  {
    match arg
    case ArgField(f) => f.name
    case ArgName(n) => n
  }

  /** `hookPageEditable`: a page that is editable stops being editable for a
      locked field; a page that is not editable, or a question about something
      that is not a field or a name, is left alone. */
  method HookPageEditable(store: PageEditLockFields, pageId: nat, editable: bool, arg: FieldArg) returns (r: bool)
    requires store.Valid()
    modifies store
    ensures store.Valid() && store.table == old(store.table)
    ensures !editable ==> !r
    ensures editable && arg.ArgOther? ==> r
    ensures editable && !arg.ArgOther? ==>
              (r <==> (pageId, FieldId(store.fields, NameRef(AskedName(arg)))) !in store.table)
    ensures !editable || arg.ArgOther? ==>
              store.locksCache == old(store.locksCache) && store.locksFlags == old(store.locksFlags)
    ensures editable && !arg.ArgOther? ==>
              store.locksCache == old(store.locksCache)[pageId := PageLocks(store.fields, store.table, pageId)]
              && store.locksFlags == old(store.locksFlags)[pageId := PageFlags(store.table, pageId)]
  {
    if !editable {
      return false;
    }
    if arg.ArgOther? {
      return true;
    }
    var locked := store.IsLocked(PageObj(pageId), NameRef(AskedName(arg)));
    r := !locked;
  }

  /** A blank field name resolves to id 0, so when id 0 is locked on a page
      (which `addLock` allows), asking about a blank name vetoes the edit. */
  lemma BlankNameIsFieldZero(fields: seq<Field>)
    requires forall f :: f in fields ==> f.name != ""
    ensures FieldId(fields, NameRef(AskedName(ArgName("")))) == 0
  {
  }

  /** `hookPagesDeleted`: a deleted page loses all its locks. */
  method HookPagesDeleted(store: PageEditLockFields, pageId: nat)
    requires store.Valid()
    modifies store
    ensures store.Valid()
    ensures store.table == old(store.table) - PageRows(old(store.table), pageId).Keys
    ensures LockedIds(store.table, pageId) == {}
    ensures store.locksCache == Dropped(old(store.locksCache), PageNum(pageId))
    ensures store.locksFlags == Dropped(old(store.locksFlags), PageNum(pageId))
  {
    var _ := store.RemoveAllLocksForPage(PageObj(pageId));
  }

  /** `hookFieldRemoved`: a field removed from a fieldgroup loses its locks on
      the pages using the fieldgroup's templates. */
  method HookFieldRemoved(store: PageEditLockFields, templates: seq<int>, field: Field)
    requires store.Valid()
    modifies store
    ensures store.Valid()
    ensures store.table == old(store.table) - FieldgroupRecords(old(store.table), store.templateOf, field.id, templates)
    ensures FieldgroupRecords(old(store.table), store.templateOf, field.id, templates) == {} ==>
              store.locksCache == old(store.locksCache) && store.locksFlags == old(store.locksFlags)
    ensures FieldgroupRecords(old(store.table), store.templateOf, field.id, templates) != {} ==>
              store.locksCache == map[] && store.locksFlags == map[]
  {
    var _ := store.RemoveAllLocksForFieldInFieldgroup(field, templates);
  }

  /** References to the names of a page's locks, in no particular order: what
      `addLocks` is handed when a page is cloned. */
  method NameRefsOfLocks(fields: seq<Field>, locks: map<int, string>) returns (refs: seq<FieldRef>)
    ensures IdsOf(fields, refs) == CloneIds(fields, locks)
  {
    refs := [];
    var pending := locks.Keys;
    while pending != {}
      invariant pending <= locks.Keys
      invariant IdsOf(fields, refs) == set id | id in locks && id !in pending :: FieldId(fields, NameRef(locks[id]))
      decreases pending
    {
      NonEmptyHasElement(pending);
      var id :| id in pending;
      assert (refs + [NameRef(locks[id])])[..|refs|] == refs;
      refs := refs + [NameRef(locks[id])];
      pending := pending - {id};
    }
  }

  /** `hookPagesCloned`: the copy is locked on whatever the original's lock
      names resolve to, with flags 0; flags are not copied. */
  method HookPagesCloned(store: PageEditLockFields, pageId: nat, copyId: nat)
    requires store.Valid()
    modifies store
    ensures store.Valid()
    ensures store.table == Cloned(store.fields, old(store.table), pageId, copyId)
    ensures PageLocks(store.fields, old(store.table), pageId) == map[] ==>
              store.locksCache == old(store.locksCache)[pageId := map[]]
              && store.locksFlags == old(store.locksFlags)[pageId := PageFlags(old(store.table), pageId)]
    ensures PageLocks(store.fields, old(store.table), pageId) != map[] ==>
              store.locksCache == Dropped(old(store.locksCache)[pageId := PageLocks(store.fields, old(store.table), pageId)], PageObj(copyId))
              && store.locksFlags == Dropped(old(store.locksFlags)[pageId := PageFlags(old(store.table), pageId)], PageObj(copyId))
  {
    var locks := store.GetLocks(PageObj(pageId));
    if |locks| > 0 {
      var refs := NameRefsOfLocks(store.fields, locks);
      var _ := store.AddLocks(PageObj(copyId), refs);
    } else {
      assert CloneIds(store.fields, locks) == {};
      assert CloneIds(store.fields, locks) - LockedIds(store.table, copyId) == {};
      AddNothing(store.table, copyId);
    }
  }

  /** The names of a page's locks as a list (`array_values`), in no particular
      order: one entry per lock, `ids` saying which lock each entry comes from. */
  method LockNames(locks: map<int, string>) returns (names: seq<string>, ghost ids: seq<int>)
    ensures |ids| == |names| == |locks|
    ensures forall i, j :: 0 <= i < j < |ids| ==> ids[i] != ids[j]
    ensures Elements(ids) == locks.Keys
    ensures forall i :: 0 <= i < |names| ==> ids[i] in locks && names[i] == locks[ids[i]]
    ensures Elements(names) == set id | id in locks :: locks[id]
  {
    names := [];
    ids := [];
    var pending := locks.Keys;
    while pending != {}
      invariant pending <= locks.Keys
      invariant NamesListed(locks, pending, names, ids)
      decreases pending
    {
      NonEmptyHasElement(pending);
      var id :| id in pending;
      NamesListedStep(locks, pending, names, ids, id);
      names := names + [locks[id]];
      ids := ids + [id];
      pending := pending - {id};
    }
  }

  /** The list built so far: one entry for each lock no longer pending, `ids`
      saying which. */
  ghost predicate NamesListed(locks: map<int, string>, pending: set<int>, names: seq<string>, ids: seq<int>) {
    && |ids| == |names| && |names| + |pending| == |locks|
    && (forall i, j :: 0 <= i < j < |ids| ==> ids[i] != ids[j])
    && Elements(ids) == locks.Keys - pending
    && (forall i :: 0 <= i < |names| ==> ids[i] in locks && names[i] == locks[ids[i]])
    && Elements(names) == set id | id in locks && id !in pending :: locks[id]
  }

  /** Listing one more pending lock keeps the list in shape. */
  lemma NamesListedStep(locks: map<int, string>, pending: set<int>, names: seq<string>, ids: seq<int>, id: int)
    requires pending <= locks.Keys && id in pending
    requires NamesListed(locks, pending, names, ids)
    ensures NamesListed(locks, pending - {id}, names + [locks[id]], ids + [id])
  {
    ElementsSnoc(names, locks[id]);
    DistinctSnoc(ids, id);
    NamesOfDone(locks, pending, id);
  }

  /** Appending an id not yet listed keeps the ids distinct. */
  lemma DistinctSnoc(ids: seq<int>, id: int)
    requires forall i, j :: 0 <= i < j < |ids| ==> ids[i] != ids[j]
    requires id !in Elements(ids)
    ensures forall i, j :: 0 <= i < j < |ids + [id]| ==> (ids + [id])[i] != (ids + [id])[j]
    ensures Elements(ids + [id]) == Elements(ids) + {id}
  {
    ElementsSnoc(ids, id);
    var ids' := ids + [id];
    forall i, j | 0 <= i < j < |ids'|
      ensures ids'[i] != ids'[j]
    {
      if j == |ids| {
        assert ids'[i] == ids[i] && ids[i] in Elements(ids);
      }
    }
  }

  /** The names of the locks done grow by the name of the one just done. */
  lemma NamesOfDone(locks: map<int, string>, pending: set<int>, id: int)
    requires id in pending && id in locks
    ensures (set x | x in locks && x !in pending - {id} :: locks[x])
         == (set x | x in locks && x !in pending :: locks[x]) + {locks[id]}
  {
  }

  /** `hookBeforeProcessInput`: on the top-level form, when the lock setting is
      in the form, was changed, the user has the permission and the submitted
      names differ from the current ones, the page's locks are replaced by the
      submitted ones, with flags 0. Reading the current locks caches the page;
      a replacement then drops it again (all pages for page 0). */
  method HookBeforeProcessInput(store: PageEditLockFields, pageId: nat, level: int,
                                hasSetting: bool, changed: bool, value: seq<string>,
                                lockUsers: LockUsers, userId: int, hasPageLockPermission: bool)
    returns (replaced: bool)
    requires store.Valid()
    modifies store
    ensures store.Valid()
    ensures replaced ==> level <= 0 && hasSetting && changed && Granted(lockUsers, userId, hasPageLockPermission)
    ensures level <= 0 && hasSetting && changed && Granted(lockUsers, userId, hasPageLockPermission)
            && Elements(value) != (set id | id in PageLocks(store.fields, old(store.table), pageId) ::
                                     PageLocks(store.fields, old(store.table), pageId)[id])
            ==> replaced
    ensures !replaced ==> store.table == old(store.table)
    ensures replaced ==> store.table == Replaced(store.fields, old(store.table), pageId, value)
    ensures level > 0 ==> store.locksCache == old(store.locksCache) && store.locksFlags == old(store.locksFlags)
    ensures level <= 0 && !replaced ==>
              store.locksCache == old(store.locksCache)[pageId := PageLocks(store.fields, store.table, pageId)]
              && store.locksFlags == old(store.locksFlags)[pageId := PageFlags(store.table, pageId)]
    ensures replaced ==>
              store.locksCache == Dropped(Dropped(old(store.locksCache)[pageId := PageLocks(store.fields, old(store.table), pageId)],
                                                  PageNum(pageId)), PageObj(pageId))
              && store.locksFlags == Dropped(Dropped(old(store.locksFlags)[pageId := PageFlags(old(store.table), pageId)],
                                                     PageNum(pageId)), PageObj(pageId))
  {
    replaced := false;
    if level > 0 {
      return;
    }
    var locks := store.GetLocks(PageObj(pageId));
    var fieldNames;
    ghost var ids;
    fieldNames, ids := LockNames(locks);
    if !hasSetting {
      return;
    }
    var has := HasPermission(lockUsers, userId, hasPageLockPermission);
    if changed && has {
      if value != fieldNames {
        ReplaceLocks(store, pageId, value);
        replaced := true;
      }
    }
  }

  /** The replacement `hookBeforeProcessInput` makes: all of the page's locks
      are removed, then one zero-flag lock is added per submitted name. */
  method ReplaceLocks(store: PageEditLockFields, pageId: nat, value: seq<string>)
    requires store.Valid()
    modifies store
    ensures store.Valid()
    ensures store.table == Replaced(store.fields, old(store.table), pageId, value)
    ensures store.locksCache == Dropped(Dropped(old(store.locksCache), PageNum(pageId)), PageObj(pageId))
    ensures store.locksFlags == Dropped(Dropped(old(store.locksFlags), PageNum(pageId)), PageObj(pageId))
  {
    var _ := store.RemoveAllLocksForPage(PageObj(pageId));
    assert IdsOf(store.fields, NameRefs(value)) - LockedIds(store.table, pageId) == IdsOf(store.fields, NameRefs(value));
    var _ := store.AddLocks(PageObj(pageId), NameRefs(value));
  }

  /** `lockInputfield` with the module's configuration and the request's state. */
  function Locker(fields: seq<Field>, config: LockConfig, postEmpty: bool): Inputfield -> Inputfield {
    f => LockInputfield(fields, config, postEmpty, f)
  }

  /** A lock operation applied `k` times. */
  function LockedTimes(lock: Inputfield -> Inputfield, k: nat, f: Inputfield): Inputfield {
    if k == 0 then f else lock(LockedTimes(lock, k - 1, f))
  }

  /** How many of the given locks name the form input `name`. */
  function HitsAmong(locks: map<int, string>, ids: set<int>, name: string): nat {
    |set id | id in ids && id in locks && FormFieldName(locks[id]) == name|
  }

  /** How many locks name the form input `name`. */
  function Hits(locks: map<int, string>, name: string): nat {
    HitsAmong(locks, locks.Keys, name)
  }

  /** One more lock adds one hit to its own form input and none to the others. */
  lemma HitsAdd(locks: map<int, string>, ids: set<int>, id: int, name: string)
    requires id in locks && id !in ids
    ensures HitsAmong(locks, ids + {id}, name) == HitsAmong(locks, ids, name) + (if FormFieldName(locks[id]) == name then 1 else 0)
  {
    var before := set i | i in ids && i in locks && FormFieldName(locks[i]) == name;
    var after := set i | i in ids + {id} && i in locks && FormFieldName(locks[i]) == name;
    if FormFieldName(locks[id]) == name {
      assert after == before + {id};
    } else {
      assert after == before;
    }
  }

  /** `hookAfterBuildForm`: every form input named by one of the page's locks
      is locked, once per lock that names it; other inputs are untouched. The
      form is given as its inputs by name. */
  method HookAfterBuildForm(store: PageEditLockFields, pageId: nat, form: map<string, Inputfield>,
                            config: LockConfig, postEmpty: bool)
    returns (newForm: map<string, Inputfield>)
    requires store.Valid()
    modifies store
    ensures store.Valid() && store.table == old(store.table)
    ensures newForm.Keys == form.Keys
    ensures forall n :: n in form ==>
              newForm[n] == LockedTimes(Locker(store.fields, config, postEmpty),
                                        Hits(PageLocks(store.fields, store.table, pageId), n), form[n])
    ensures store.locksCache == old(store.locksCache)[pageId := PageLocks(store.fields, store.table, pageId)]
    ensures store.locksFlags == old(store.locksFlags)[pageId := PageFlags(store.table, pageId)]
  {
    var locks := store.GetLocks(PageObj(pageId));
    newForm := LockFormInputs(Locker(store.fields, config, postEmpty), locks, form);
  }

  /** The loop of `hookAfterBuildForm` over a page's locks: the input each lock
      name maps to, when the form has one, is locked. */
  method LockFormInputs(lock: Inputfield -> Inputfield, locks: map<int, string>, form: map<string, Inputfield>)
    returns (newForm: map<string, Inputfield>)
    ensures newForm.Keys == form.Keys
    ensures forall n :: n in form ==> newForm[n] == LockedTimes(lock, Hits(locks, n), form[n])
  {
    newForm := form;
    var pending := locks.Keys;
    ghost var done: set<int> := {};
    while pending != {}
      invariant pending <= locks.Keys && done == locks.Keys - pending
      invariant LockedPerHits(lock, locks, done, form, newForm)
      decreases pending
    {
      NonEmptyHasElement(pending);
      var id :| id in pending;
      var formName := FormFieldName(locks[id]);
      ghost var before := newForm;
      if formName in newForm {
        newForm := newForm[formName := lock(newForm[formName])];
      }
      LockStep(lock, locks, done, id, form, before, newForm);
      pending := pending - {id};
      done := done + {id};
    }
    assert done == locks.Keys;
  }

  /** The form has the same inputs, and each is locked once per lock among
      `done` that names it. */
  ghost predicate LockedPerHits(lock: Inputfield -> Inputfield, locks: map<int, string>,
                                done: set<int>, form: map<string, Inputfield>, newForm: map<string, Inputfield>)
  {
    && newForm.Keys == form.Keys
    && forall n :: n in form ==>
         newForm[n] == LockedTimes(lock, HitsAmong(locks, done, n), form[n])
  }

  /** Locking the input one more lock names, when the form has it, keeps
      every input locked once per lock read so far. */
  lemma LockStep(lock: Inputfield -> Inputfield, locks: map<int, string>,
                 done: set<int>, id: int, form: map<string, Inputfield>,
                 newForm: map<string, Inputfield>, next: map<string, Inputfield>)
    requires id in locks && id !in done
    requires LockedPerHits(lock, locks, done, form, newForm)
    requires var formName := FormFieldName(locks[id]);
             next == if formName in newForm
                     then newForm[formName := lock(newForm[formName])]
                     else newForm
    ensures LockedPerHits(lock, locks, done + {id}, form, next)
  {
    forall n | n in form
      ensures HitsAmong(locks, done + {id}, n) == HitsAmong(locks, done, n) + (if FormFieldName(locks[id]) == n then 1 else 0)
    {
      HitsAdd(locks, done, id, n);
    }
  }

  /** When the page's lock names are distinct and none is `_pw_page_name`, each
      form input is locked at most once, and exactly once when a lock names it. */
  lemma {:induction false} LockedOnce(locks: map<int, string>, id: int)
    requires forall a, b :: a in locks && b in locks && a != b ==> locks[a] != locks[b]
    requires forall a :: a in locks ==> locks[a] != "_pw_page_name"
    requires id in locks
    ensures Hits(locks, FormFieldName(locks[id])) == 1
  {
    var name := FormFieldName(locks[id]);
    var hits := set i | i in locks.Keys && i in locks && FormFieldName(locks[i]) == name;
    forall i | i in hits
      ensures i == id
    {
      if i != id {
        FormFieldNameInjective(locks[i], locks[id]);
      }
    }
    assert hits == {id};
  }

  /** `hookFieldGetInputfield`: outside the page editor, the Inputfield of a
      locked field is locked. */
  method HookFieldGetInputfield(store: PageEditLockFields, pageId: nat, field: Field, inputfield: Inputfield,
                                config: LockConfig, postEmpty: bool)
    returns (r: Inputfield)
    requires store.Valid()
    modifies store
    ensures store.Valid() && store.table == old(store.table)
    ensures r == if (pageId, field.id) in store.table then LockInputfield(store.fields, config, postEmpty, inputfield)
                 else inputfield
    ensures store.locksCache == old(store.locksCache)[pageId := PageLocks(store.fields, store.table, pageId)]
    ensures store.locksFlags == old(store.locksFlags)[pageId := PageFlags(store.table, pageId)]
  {
    var locked := store.IsLocked(PageObj(pageId), FieldObj(field));
    r := if locked then LockInputfield(store.fields, config, postEmpty, inputfield) else inputfield;
  }
}
