/**
  Sequences of store operations and the outcome the module promises for them:
  a lock once added is reported, adding it again stores nothing, removing all
  of a page's locks empties it, a fieldgroup removal stays within its
  templates, and a worked example with a property and a field.
 */
module Scenarios {
  import opened Wrappers
  import opened Host
  import opened Identifiers
  import opened LockStore
  import opened Hooks

  /** After `addLock(P, F)`, whether it inserted or found the lock there,
      `isLocked(P, F)` holds and `getLocks(P)` lists F under its name. */
  method AddThenQuery(store: PageEditLockFields, page: PageRef, field: FieldRef)
    returns (locked: bool, locks: map<int, string>)
    requires store.Valid()
    modifies store
    ensures locked
    ensures FieldId(store.fields, field) in locks
    ensures locks[FieldId(store.fields, field)] == IdName(store.fields, FieldId(store.fields, field))
  {
    var _ := store.AddLock(page, field, 0);
    locked := store.IsLocked(page, field);
    locks := store.GetLocks(page);
    LockedIdsMember(store.table, PageId(page), FieldId(store.fields, field));
  }

  /** Adding the same lock twice stores one record: the second insert reports
      failure and changes nothing. */
  method AddTwice(store: PageEditLockFields, page: PageRef, field: FieldRef, flags: int)
    returns (first: bool, second: bool)
    requires store.Valid()
    modifies store
    ensures !second
    ensures (PageId(page), FieldId(store.fields, field)) in store.table
    ensures first ==> store.table == old(store.table)[(PageId(page), FieldId(store.fields, field)) := flags]
    ensures !first ==> store.table == old(store.table)
  {
    first := store.AddLock(page, field, flags);
    second := store.AddLock(page, field, flags);
  }

  /** Removing a lock twice: the second removal finds nothing, and the lock is gone. */
  method RemoveTwice(store: PageEditLockFields, page: PageRef, field: FieldRef)
    returns (first: bool, second: bool, locked: bool)
    requires store.Valid()
    modifies store
    ensures first <==> (PageId(page), FieldId(store.fields, field)) in old(store.table)
    ensures !second && !locked
  {
    first := store.RemoveLock(page, field);
    second := store.RemoveLock(page, field);
    locked := store.IsLocked(page, field);
  }

  /** After `removeAllLocksForPage(P)`, `getLocks(P)` is empty. */
  method ClearThenGetLocks(store: PageEditLockFields, page: PageRef) returns (locks: map<int, string>)
    requires store.Valid()
    modifies store
    ensures locks == map[]
  {
    var _ := store.RemoveAllLocksForPage(page);
    locks := store.GetLocks(page);
    PageLocksKeys(store.fields, store.table, PageId(page));
  }

  /** A field locked on a page of a template in the fieldgroup loses that lock,
      while the same field locked on a page of another template keeps it. */
  lemma FieldgroupRemovalScoped(t: Table, templateOf: map<int, int>, fid: int, templates: seq<int>, p1: int, p2: int)
    requires (p1, fid) in t && (p2, fid) in t
    requires p1 in templateOf && templateOf[p1] in templates
    requires p2 in templateOf && templateOf[p2] !in templates
    ensures (p1, fid) !in t - FieldgroupRecords(t, templateOf, fid, templates)
    ensures (p2, fid) in t - FieldgroupRecords(t, templateOf, fid, templates)
  {
    FieldgroupScoped(t, templateOf, fid, templates, (p1, fid));
    FieldgroupScoped(t, templateOf, fid, templates, (p2, fid));
  }

  /** The locks of a page with no records. */
  lemma NoLocks(fields: seq<Field>, pid: int)
    ensures PageLocks(fields, map[], pid) == map[]
  {
    PageLocksKeys(fields, map[], pid);
  }

  /** The example's field registry: one field, `title`, with id 7. */
  const TitleOnly: seq<Field> := [Field(7, "title")]

  /** In that registry `status` names the status property and `title` the field 7. */
  lemma Page42Ids()
    ensures FieldId(TitleOnly, NameRef("status")) == -4
    ensures FieldId(TitleOnly, NameRef("title")) == 7
    ensures IdName(TitleOnly, -4) == "status"
    ensures IdName(TitleOnly, 7) == "title"
  {
    NotDigits("status", 0);
    NotDigits("title", 0);
  }

  /** The names cached for page 42 once it holds the two locks. */
  lemma Page42Locks()
    ensures PageLocks(TitleOnly, map[(42, -4) := 0][(42, 7) := 0], 42) == map[-4 := "status", 7 := "title"]
  {
    Page42Ids();
    NoLocks(TitleOnly, 42);
    LocksAfterInsert(TitleOnly, map[], 42, -4, 0);
    LocksAfterInsert(TitleOnly, map[(42, -4) := 0], 42, 7, 0);
  }

  /** A store over the example registry holding the two locks of page 42,
      put there by `addLock`. */
  method Page42Store() returns (store: PageEditLockFields)
    ensures fresh(store) && store.Valid()
    ensures store.fields == TitleOnly && store.table == map[(42, -4) := 0][(42, 7) := 0]
  {
    store := new PageEditLockFields(TitleOnly, map[], map[]);
    Page42Ids();
    var _ := store.AddLock(PageNum(42), NameRef("status"), 0);
    assert store.table == map[(42, -4) := 0];
    var _ := store.AddLock(PageNum(42), NameRef("title"), 0);
  }

  /** Page 42 locked on its `status` property and on the field `title` (id 7):
      its locks list both by name, a status action on it is refused, and the
      same action on page 43, which has no locks, goes through. */
  method Page42() returns (locks: map<int, string>, reply42: Option<ActionReply>, reply43: Option<ActionReply>)
    ensures locks == map[-4 := "status", 7 := "title"]
    ensures reply42 == Some(ActionReply("pub", false, 0, false, false))
    ensures reply43 == None
  {
    var store := Page42Store();
    Page42Locks();
    locks := store.GetLocks(PageNum(42));
    assert "pub" in StatusActions;
    assert (42, -4) in store.table && (43, -4) !in store.table;
    reply42 := HookPageListProcessAction(store, 42, "pub");
    reply43 := HookPageListProcessAction(store, 43, "pub");
  }
}
