/**
  The lock relation: the table `page_edit_lock_fields`, keyed by
  (pages_id, fields_id) and holding a flags integer, with the two per-page
  caches the module keeps over it.
 */
module LockStore {
  import opened Host
  import opened Identifiers

  /** The primary key of a lock record: (pages_id, fields_id). */
  type Key = (int, int)

  /** The table as a map from primary key to flags: a pair is stored at most once. */
  type Table = map<Key, int>

  /** The rows `SELECT * FROM page_edit_lock_fields WHERE pages_id=:pid` returns. */
  function PageRows(t: Table, pid: int): (rows: Table)
    ensures forall k :: k in rows <==> k in t && k.0 == pid
    ensures forall k :: k in rows ==> rows[k] == t[k]
  {
    map k | k in t && k.0 == pid :: t[k]
  }

  /** The field ids of a set of rows. */
  function RowIds(rows: Table): set<int> {
    set k | k in rows :: k.1
  }

  /** The field ids locked on a page. */
  function LockedIds(t: Table, pid: int): set<int> {
    RowIds(PageRows(t, pid))
  }

  /** The page ids that hold at least one lock. */
  function LockedPages(t: Table): set<int> {
    set k | k in t :: k.0
  }

  /** Field id to field name for a page's rows: the value `getLocks` caches and returns. */
  function NamesOf(fields: seq<Field>, rows: Table): map<int, string> {
    map f | f in RowIds(rows) :: IdName(fields, f)
  }

  /** Field id to flags for a page's rows: the value cached in `locksFlags`. */
  function FlagsOf(rows: Table, pid: int): map<int, int> {
    map f | f in RowIds(rows) && (pid, f) in rows :: rows[(pid, f)]
  }

  function PageLocks(fields: seq<Field>, t: Table, pid: int): map<int, string> {
    NamesOf(fields, PageRows(t, pid))
  }

  function PageFlags(t: Table, pid: int): map<int, int> {
    FlagsOf(PageRows(t, pid), pid)
  }

  /** The records of one field on every page. */
  function FieldRecords(t: Table, fid: int): set<Key> {
    set k | k in t && k.1 == fid
  }

  /** The records of a field on the pages of one template: the rows of the
      fieldgroup query for one template id. */
  function TemplateRecords(t: Table, templateOf: map<int, int>, fid: int, tid: int): set<Key> {
    set k | k in t && k.1 == fid && k.0 in templateOf && templateOf[k.0] == tid
  }

  /** The records of a field on the pages whose template is one of `templates`. */
  function FieldgroupRecords(t: Table, templateOf: map<int, int>, fid: int, templates: seq<int>): set<Key> {
    set k | k in t && k.1 == fid && k.0 in templateOf && templateOf[k.0] in templates
  }

  /** Records with flags 0 for the given fields of one page. */
  function ZeroLocks(pid: int, ids: set<int>): (r: Table)
    ensures forall k: Key :: k in r <==> k.0 == pid && k.1 in ids
    ensures forall k :: k in r ==> r[k] == 0
  {
    map f | f in ids :: (pid, f) := 0
  }

  /** The field ids a list of references resolves to. */
  function IdsOf(fields: seq<Field>, refs: seq<FieldRef>): set<int> {
    if refs == [] then {} else IdsOf(fields, refs[..|refs| - 1]) + {FieldId(fields, refs[|refs| - 1])}
  }

  /** The ids the names of a page's locks resolve to: what a clone of the page is locked on. */
  function CloneIds(fields: seq<Field>, locks: map<int, string>): set<int> {
    set id | id in locks :: FieldId(fields, NameRef(locks[id]))
  }

  /** The references to a list of names, as a form submits them. */
  function NameRefs(names: seq<string>): seq<FieldRef> {
    seq(|names|, i requires 0 <= i < |names| => NameRef(names[i]))
  }

  /** A cache after `resetCache($page)`: the page's entry dropped, or everything
      dropped when `$page` is falsy. */
  function Dropped<V>(cache: map<int, V>, page: PageRef): (r: map<int, V>)
    ensures Truthy(page) ==> r.Keys == cache.Keys - {PageId(page)}
    ensures !Truthy(page) ==> r == map[]
    ensures forall p :: p in r ==> p in cache && r[p] == cache[p]
  {
    if Truthy(page) then cache - {PageId(page)} else map[]
  }

  /** A field is locked on a page exactly when the table holds their pair. */
  lemma LockedIdsMember(t: Table, pid: int, f: int)
    ensures f in LockedIds(t, pid) <==> (pid, f) in t
  {
    var rows := PageRows(t, pid);
    if (pid, f) in t {
      assert (pid, f) in rows;
      assert (pid, f).1 == f;
    }
  }

  /** The cached flags of a page hold exactly its records' flags. */
  lemma PageFlagsMember(t: Table, pid: int, f: int)
    ensures f in PageFlags(t, pid) <==> (pid, f) in t
    ensures f in PageFlags(t, pid) ==> PageFlags(t, pid)[f] == t[(pid, f)]
  {
    LockedIdsMember(t, pid, f);
  }

  /** The cached names of a page hold exactly its locked field ids. */
  lemma PageLocksKeys(fields: seq<Field>, t: Table, pid: int)
    ensures PageLocks(fields, t, pid).Keys == LockedIds(t, pid)
  {
  }

  /** A change confined to other pages leaves a page's rows alone. */
  lemma PageRowsFrame(t: Table, t': Table, pid: int)
    requires forall k: Key :: k.0 == pid ==> (k in t <==> k in t')
    requires forall k: Key :: k.0 == pid && k in t ==> t[k] == t'[k]
    ensures PageRows(t, pid) == PageRows(t', pid)
  {
  }

  /** A change confined to one page leaves every other page's locks and flags alone. */
  lemma OtherPagesUnchanged(fields: seq<Field>, t: Table, t': Table, pid: int)
    requires forall k: Key :: k.0 != pid ==> (k in t <==> k in t')
    requires forall k: Key :: k.0 != pid && k in t ==> t[k] == t'[k]
    ensures forall p :: p != pid ==> PageLocks(fields, t, p) == PageLocks(fields, t', p)
    ensures forall p :: p != pid ==> PageFlags(t, p) == PageFlags(t', p)
  {
    forall p | p != pid
      ensures PageRows(t, p) == PageRows(t', p)
    {
      PageRowsFrame(t, t', p);
    }
  }

  /** Deleting a page's records removes as many records as it had locked
      fields, leaves it with none, and leaves every other page as it was. */
  lemma ClearedPage(fields: seq<Field>, t: Table, pid: int)
    ensures |PageRows(t, pid).Keys| == |LockedIds(t, pid)|
    ensures LockedIds(t - PageRows(t, pid).Keys, pid) == {}
    ensures forall p :: p != pid ==> PageLocks(fields, t, p) == PageLocks(fields, t - PageRows(t, pid).Keys, p)
    ensures forall p :: p != pid ==> PageFlags(t, p) == PageFlags(t - PageRows(t, pid).Keys, p)
  {
    var t' := t - PageRows(t, pid).Keys;
    PageRowsCount(t, pid);
    OtherPagesUnchanged(fields, t, t', pid);
    assert PageRows(t', pid) == map[];
  }

  /** One more reference adds its id to the ids of the references before it. */
  lemma IdsOfSnoc(fields: seq<Field>, refs: seq<FieldRef>, i: nat)
    requires i < |refs|
    ensures IdsOf(fields, refs[..i + 1]) == IdsOf(fields, refs[..i]) + {FieldId(fields, refs[i])}
  {
    assert refs[..i + 1][..i] == refs[..i];
  }

  /** One record is added per id, so the count `addLocks` returns is the
      number of records it inserted. */
  lemma ZeroLocksCount(pid: int, ids: set<int>)
    ensures |ZeroLocks(pid, ids).Keys| == |ids|
  {
    var keys := ZeroLocks(pid, ids).Keys;
    SecondCount(keys, pid);
    assert (set k | k in keys :: k.1) == ids by {
      forall f | f in ids
        ensures f in (set k | k in keys :: k.1)
      {
        assert (pid, f) in keys;
      }
    }
  }

  /** A page has as many records as locked field ids. */
  lemma PageRowsCount(t: Table, pid: int)
    ensures |PageRows(t, pid).Keys| == |LockedIds(t, pid)|
  {
    SecondCount(PageRows(t, pid).Keys, pid);
  }

  /** Keys that share their page id are as many as their field ids. */
  lemma {:induction false} SecondCount(s: set<Key>, pid: int)
    requires forall k :: k in s ==> k.0 == pid
    ensures |set k | k in s :: k.1| == |s|
  {
    if s != {} {
      var x :| x in s;
      var rest := s - {x};
      SecondCount(rest, pid);
      var ids := set k | k in rest :: k.1;
      assert (set k | k in s :: k.1) == ids + {x.1};
    }
  }

  /** One step of the insert loop of `addLocks`: the insert of the i-th
      reference's field `f` succeeds exactly when it is not stored yet, and then
      `f` joins the set of inserted fields; either way the table is the original
      plus the inserted fields. */
  lemma InsertStep(fields: seq<Field>, t0: Table, t: Table, t': Table, pid: int, refs: seq<FieldRef>, i: nat,
                   added: set<int>, f: int, ok: bool)
    requires i < |refs| && f == FieldId(fields, refs[i])
    requires t == t0 + ZeroLocks(pid, added)
    requires added == IdsOf(fields, refs[..i]) - LockedIds(t0, pid)
    requires ok <==> (pid, f) !in t
    requires t' == if ok then t[(pid, f) := 0] else t
    ensures var added' := if ok then added + {f} else added;
            && t' == t0 + ZeroLocks(pid, added')
            && added' == IdsOf(fields, refs[..i + 1]) - LockedIds(t0, pid)
            && |added'| == |added| + (if ok then 1 else 0)
  {
    IdsOfSnoc(fields, refs, i);
    AddedStep(t0, t, pid, added, f, IdsOf(fields, refs[..i]), IdsOf(fields, refs[..i + 1]));
  }

  /** The same step on sets: `after` is `before` with one more field `f`. */
  lemma AddedStep(t0: Table, t: Table, pid: int, added: set<int>, f: int, before: set<int>, after: set<int>)
    requires after == before + {f}
    requires added == before - LockedIds(t0, pid)
    requires t == t0 + ZeroLocks(pid, added)
    ensures (pid, f) in t ==> added == after - LockedIds(t0, pid)
    ensures (pid, f) !in t ==>
              && |added + {f}| == |added| + 1
              && added + {f} == after - LockedIds(t0, pid)
              && t[(pid, f) := 0] == t0 + ZeroLocks(pid, added + {f})
  {
    LockedIdsMember(t0, pid, f);
    if (pid, f) !in t {
      assert f !in added;
      ZeroLocksGrow(t0, pid, added, f);
    }
  }

  /** Inserting one more zero-flag record for a page is adding its field to the inserted set. */
  lemma ZeroLocksGrow(t0: Table, pid: int, added: set<int>, f: int)
    ensures (t0 + ZeroLocks(pid, added))[(pid, f) := 0] == t0 + ZeroLocks(pid, added + {f})
  {
    var a := (t0 + ZeroLocks(pid, added))[(pid, f) := 0];
    var b := t0 + ZeroLocks(pid, added + {f});
    forall k: Key
      ensures k in a <==> k in b
      ensures k in a ==> a[k] == b[k]
    {
    }
  }

  /** The elements of a sequence. */
  function Elements<T>(s: seq<T>): set<T> {
    set x | x in s
  }

  lemma ElementsSnoc<T>(s: seq<T>, x: T)
    ensures Elements(s + [x]) == Elements(s) + {x}
  {
    assert forall y :: y in s + [x] <==> y in s || y == x;
  }

  /** One more template adds its records to the fieldgroup's. */
  lemma FieldgroupRecordsSnoc(t: Table, templateOf: map<int, int>, fid: int, templates: seq<int>, j: nat)
    requires j < |templates|
    ensures FieldgroupRecords(t, templateOf, fid, templates[..j + 1])
         == FieldgroupRecords(t, templateOf, fid, templates[..j]) + TemplateRecords(t, templateOf, fid, templates[j])
  {
    assert forall x :: x in templates[..j + 1] <==> x in templates[..j] || x == templates[j];
  }

  /** Getting the locks of a page just locked on a field shows that field under its name. */
  lemma LocksAfterInsert(fields: seq<Field>, t: Table, pid: int, f: int, flags: int)
    ensures PageLocks(fields, t[(pid, f) := flags], pid) == PageLocks(fields, t, pid)[f := IdName(fields, f)]
  {
    var t' := t[(pid, f) := flags];
    var after := PageLocks(fields, t', pid);
    var expected := PageLocks(fields, t, pid)[f := IdName(fields, f)];
    PageLocksKeys(fields, t, pid);
    PageLocksKeys(fields, t', pid);
    forall g
      ensures g in after <==> g in expected
    {
      LockedIdsMember(t, pid, g);
      LockedIdsMember(t', pid, g);
    }
    MapsAgree(after, expected);
  }

  /** Getting the locks of a page just unlocked on a field no longer shows that field. */
  lemma LocksAfterDelete(fields: seq<Field>, t: Table, pid: int, f: int)
    ensures PageLocks(fields, t - {(pid, f)}, pid) == PageLocks(fields, t, pid) - {f}
  {
    var t' := t - {(pid, f)};
    var after := PageLocks(fields, t', pid);
    var expected := PageLocks(fields, t, pid) - {f};
    PageLocksKeys(fields, t, pid);
    PageLocksKeys(fields, t', pid);
    forall g
      ensures g in after <==> g in expected
    {
      LockedIdsMember(t, pid, g);
      LockedIdsMember(t', pid, g);
    }
    MapsAgree(after, expected);
  }

  /** Two maps with the same keys and the same value at each key are equal. */
  lemma MapsAgree(a: map<int, string>, b: map<int, string>)
    requires forall g :: g in a <==> g in b
    requires forall g :: g in a ==> a[g] == b[g]
    ensures a == b
  {
    forall g
      ensures g in a <==> g in b
      ensures g in a ==> a[g] == b[g]
    {
    }
  }

  /** After `addLocks` a page is locked on what it was locked on before plus
      every id the references resolve to. */
  lemma LockedAfterAddLocks(t: Table, pid: int, ids: set<int>)
    ensures LockedIds(t + ZeroLocks(pid, ids - LockedIds(t, pid)), pid) == LockedIds(t, pid) + ids
  {
    var t' := t + ZeroLocks(pid, ids - LockedIds(t, pid));
    forall g
      ensures g in LockedIds(t', pid) <==> g in LockedIds(t, pid) + ids
    {
      LockedIdsMember(t, pid, g);
      LockedIdsMember(t', pid, g);
    }
  }

  /** When every lock of a page round-trips through its name, a clone is locked
      on exactly the same ids. */
  lemma {:induction false} CloneIdsOfRoundTrips(fields: seq<Field>, t: Table, pid: int)
    requires forall id :: id in LockedIds(t, pid) ==> RoundTrips(fields, id)
    ensures CloneIds(fields, PageLocks(fields, t, pid)) == LockedIds(t, pid)
  {
    var locks := PageLocks(fields, t, pid);
    PageLocksKeys(fields, t, pid);
    forall id | id in LockedIds(t, pid)
      ensures id in CloneIds(fields, locks)
    {
      assert FieldId(fields, NameRef(locks[id])) == id;
    }
  }

  /** Removing a field from a fieldgroup deletes exactly that field's records
      on pages of the fieldgroup's templates: the field's records on other
      pages, and other fields' records, stay. */
  lemma FieldgroupScoped(t: Table, templateOf: map<int, int>, fid: int, templates: seq<int>, k: Key)
    ensures k in t - FieldgroupRecords(t, templateOf, fid, templates)
        <==> k in t && !(k.1 == fid && k.0 in templateOf && templateOf[k.0] in templates)
  {
  }

  /** The table after a page is cloned: the copy gains a zero-flag lock for every
      id its original's lock names resolve to, unless it holds one already. */
  function Cloned(fields: seq<Field>, t: Table, pid: int, cid: int): Table {
    t + ZeroLocks(cid, CloneIds(fields, PageLocks(fields, t, pid)) - LockedIds(t, cid))
  }

  /** A clone is locked on what it was locked on plus what the names of its
      original's locks resolve to; when every one of those locks round-trips
      through its name, that is exactly the original's locks. */
  lemma ClonedLocks(fields: seq<Field>, t: Table, pid: int, cid: int)
    ensures LockedIds(Cloned(fields, t, pid, cid), cid) == LockedIds(t, cid) + CloneIds(fields, PageLocks(fields, t, pid))
    ensures (forall id :: id in LockedIds(t, pid) ==> RoundTrips(fields, id)) ==>
              LockedIds(Cloned(fields, t, pid, cid), cid) == LockedIds(t, cid) + LockedIds(t, pid)
    ensures forall p :: p != cid ==> PageRows(Cloned(fields, t, pid, cid), p) == PageRows(t, p)
    ensures forall k :: k in t ==> k in Cloned(fields, t, pid, cid) && Cloned(fields, t, pid, cid)[k] == t[k]
    ensures forall k :: k in Cloned(fields, t, pid, cid) && k !in t ==> k.0 == cid && Cloned(fields, t, pid, cid)[k] == 0
  {
    LockedAfterAddLocks(t, cid, CloneIds(fields, PageLocks(fields, t, pid)));
    if forall id :: id in LockedIds(t, pid) ==> RoundTrips(fields, id) {
      CloneIdsOfRoundTrips(fields, t, pid);
    }
    var t' := Cloned(fields, t, pid, cid);
    forall p | p != cid
      ensures PageRows(t', p) == PageRows(t, p)
    {
      PageRowsFrame(t, t', p);
    }
  }

  /** Adding no records leaves the table as it is. */
  lemma AddNothing(t: Table, pid: int)
    ensures t + ZeroLocks(pid, {}) == t
  {
    var t' := t + ZeroLocks(pid, {});
    forall k: Key
      ensures k in t' <==> k in t
      ensures k in t' ==> t'[k] == t[k]
    {
    }
  }

  /** The table after the editor form replaces a page's locks: the page's
      records are deleted, then a zero-flag lock is added for each submitted name. */
  function Replaced(fields: seq<Field>, t: Table, pid: int, names: seq<string>): Table {
    (t - PageRows(t, pid).Keys) + ZeroLocks(pid, IdsOf(fields, NameRefs(names)))
  }

  /** After the replacement the page is locked on exactly the submitted names'
      ids, each with flags 0, and every other page keeps its records. */
  lemma ReplacedLocks(fields: seq<Field>, t: Table, pid: int, names: seq<string>)
    ensures LockedIds(Replaced(fields, t, pid, names), pid) == IdsOf(fields, NameRefs(names))
    ensures forall f :: f in LockedIds(Replaced(fields, t, pid, names), pid) ==> Replaced(fields, t, pid, names)[(pid, f)] == 0
    ensures forall p :: p != pid ==> PageRows(Replaced(fields, t, pid, names), p) == PageRows(t, p)
  {
    var t' := Replaced(fields, t, pid, names);
    forall f
      ensures f in LockedIds(t', pid) <==> f in IdsOf(fields, NameRefs(names))
    {
      LockedIdsMember(t', pid, f);
    }
    forall f | f in LockedIds(t', pid)
      ensures t'[(pid, f)] == 0
    {
      LockedIdsMember(t', pid, f);
    }
    forall p | p != pid
      ensures PageRows(t', p) == PageRows(t, p)
    {
      PageRowsFrame(t, t', p);
    }
  }

  /** A set with no element is empty. */
  lemma NonEmptyHasElement(s: set<int>)
    requires s != {}
    ensures exists x :: x in s
  {
    if forall x :: x !in s {
      assert false;
    }
  }

  /** The page-id order used by `ORDER BY pages_id`: a non-empty set of ids has a smallest one. */
  lemma {:induction false} Minimum(s: set<int>) returns (m: int)
    requires s != {}
    ensures m in s && forall x :: x in s ==> m <= x
  {
    NonEmptyHasElement(s);
    var y :| y in s;
    if s == {y} {
      m := y;
    } else {
      var rest := Minimum(s - {y});
      m := if y < rest then y else rest;
      forall x | x in s
        ensures m <= x
      {
        if x != y {
          assert x in s - {y};
        }
      }
    }
  }

  /** The rows of page `pid` outside `pending` have been read into `names` and `flags`. */
  ghost predicate RowsRead(fields: seq<Field>, t: Table, pid: int, pending: set<Key>,
                           names: map<int, string>, flags: map<int, int>)
  {
    && names.Keys == flags.Keys
    && (forall f :: f in names ==>
          (pid, f) in t && (pid, f) !in pending && names[f] == IdName(fields, f) && flags[f] == t[(pid, f)])
    && (forall k :: k in t && k.0 == pid && k !in pending ==> k.1 in names)
  }

  /** Reading one more row keeps RowsRead. */
  lemma ReadRow(fields: seq<Field>, t: Table, pid: int, pending: set<Key>,
                names: map<int, string>, flags: map<int, int>, row: Key)
    requires RowsRead(fields, t, pid, pending, names, flags)
    requires row in pending && row in t && row.0 == pid
    ensures RowsRead(fields, t, pid, pending - {row},
                     names[row.1 := IdName(fields, row.1)], flags[row.1 := t[row]])
  {
  }

  /** Names and flags read row by row from a page's records: the cached values
      once every row has been read. */
  lemma {:induction false} LoadedRows(fields: seq<Field>, t: Table, pid: int, names: map<int, string>, flags: map<int, int>)
    requires RowsRead(fields, t, pid, {}, names, flags)
    ensures names == PageLocks(fields, t, pid)
    ensures flags == PageFlags(t, pid)
  {
    forall f
      ensures f in names <==> f in LockedIds(t, pid)
    {
      LockedIdsMember(t, pid, f);
      if (pid, f) in t {
        assert (pid, f).1 == f;
      }
    }
    forall f | f in names
      ensures PageFlags(t, pid)[f] == flags[f]
    {
      PageFlagsMember(t, pid, f);
    }
  }

  /** One line of the full inventory: a page, its path and its locks. */
  datatype LockReport = LockReport(id: int, path: string, fields: map<int, string>)

  /** The pages an inventory reports on. */
  function ReportIds(items: seq<LockReport>): set<int> {
    set r | r in items :: r.id
  }

  lemma ReportIdsSnoc(items: seq<LockReport>, r: LockReport)
    ensures ReportIds(items + [r]) == ReportIds(items) + {r.id}
  {
    assert forall x :: x in items + [r] <==> x in items || x == r;
  }

  /** The inventory built so far: the reported pages are the locked pages not
      yet pending, in ascending order and all below the pending ones, each with
      its path and its locks. */
  ghost predicate Inventory(fields: seq<Field>, t: Table, pathOf: int -> string, items: seq<LockReport>, pending: set<int>) {
    && ReportIds(items) == LockedPages(t) - pending
    && (forall i, j :: 0 <= i < j < |items| ==> items[i].id < items[j].id)
    && (forall i, p :: 0 <= i < |items| && p in pending ==> items[i].id < p)
    && (forall i :: 0 <= i < |items| ==>
          items[i] == LockReport(items[i].id, pathOf(items[i].id), PageLocks(fields, t, items[i].id)))
  }

  /** Reporting the least pending page keeps the inventory in shape. */
  lemma InventoryStep(fields: seq<Field>, t: Table, pathOf: int -> string, items: seq<LockReport>, pending: set<int>, pid: int)
    requires Inventory(fields, t, pathOf, items, pending)
    requires pending <= LockedPages(t)
    requires pid in pending && forall p :: p in pending ==> pid <= p
    ensures Inventory(fields, t, pathOf, items + [LockReport(pid, pathOf(pid), PageLocks(fields, t, pid))], pending - {pid})
  {
    var r := LockReport(pid, pathOf(pid), PageLocks(fields, t, pid));
    ReportIdsSnoc(items, r);
    var items' := items + [r];
    forall i | 0 <= i < |items'|
      ensures items'[i] == LockReport(items'[i].id, pathOf(items'[i].id), PageLocks(fields, t, items'[i].id))
    {
      if i < |items| {
        assert items'[i] == items[i];
      }
    }
  }

  /** The table's view of every page: its names and its flags. */
  function LocksView(fields: seq<Field>, t: Table): int -> map<int, string> {
    p => PageLocks(fields, t, p)
  }

  function FlagsView(t: Table): int -> map<int, int> {
    p => PageFlags(t, p)
  }

  /** The two caches hold the same pages, and each cached page outside
      `stale` holds what the views give for it. */
  ghost predicate CachesAgree(names: map<int, map<int, string>>, flags: map<int, map<int, int>>,
                              nameOf: int -> map<int, string>, flagsOf: int -> map<int, int>, stale: set<int>)
  {
    && names.Keys == flags.Keys
    && forall p :: p in names && p !in stale ==> names[p] == nameOf(p) && flags[p] == flagsOf(p)
  }

  /** Caching a page as the views give it keeps the caches in agreement. */
  lemma CachesStore(names: map<int, map<int, string>>, flags: map<int, map<int, int>>,
                    nameOf: int -> map<int, string>, flagsOf: int -> map<int, int>, pid: int)
    requires CachesAgree(names, flags, nameOf, flagsOf, {})
    ensures CachesAgree(names[pid := nameOf(pid)], flags[pid := flagsOf(pid)], nameOf, flagsOf, {})
  {
  }

  /** After a table change confined to one page, resetting the cache for
      that page (or, for a falsy page, for every page) leaves caches that
      agree with the table everywhere. */
  lemma DroppedAgrees(names: map<int, map<int, string>>, flags: map<int, map<int, int>>,
                      nameOf: int -> map<int, string>, flagsOf: int -> map<int, int>, page: PageRef)
    requires Truthy(page) ==> CachesAgree(names, flags, nameOf, flagsOf, {PageId(page)})
    ensures CachesAgree(Dropped(names, page), Dropped(flags, page), nameOf, flagsOf, {})
  {
  }

  /** A cached page is the views' value for it, and caching it again changes nothing. */
  lemma CachesHit(names: map<int, map<int, string>>, flags: map<int, map<int, int>>,
                  nameOf: int -> map<int, string>, flagsOf: int -> map<int, int>, pid: int)
    requires CachesAgree(names, flags, nameOf, flagsOf, {}) && pid in names
    ensures names[pid] == nameOf(pid) && flags[pid] == flagsOf(pid)
    ensures names[pid := names[pid]] == names && flags[pid := flags[pid]] == flags
  {
    forall p
      ensures p in names[pid := names[pid]] <==> p in names
      ensures p in names ==> names[pid := names[pid]][p] == names[p]
    {
    }
    forall p
      ensures p in flags[pid := flags[pid]] <==> p in flags
      ensures p in flags ==> flags[pid := flags[pid]][p] == flags[p]
    {
    }
  }

  class PageEditLockFields {
    /** The host's field registry. */
    const fields: seq<Field>
    /** `pages.templates_id`: the template of each page. */
    const templateOf: map<int, int>
    /** The table `page_edit_lock_fields`. */
    var table: Table
    /** page id => (field id => field name) */
    var locksCache: map<int, map<int, string>>
    /** page id => (field id => flags) */
    var locksFlags: map<int, map<int, int>>

    /** Both caches hold the same pages, and every cached page outside `stale` agrees with the table. */
    ghost predicate ValidExcept(stale: set<int>)
      reads this
    {
      CachesAgree(locksCache, locksFlags, LocksView(fields, table), FlagsView(table), stale)
    }

    ghost predicate Valid()
      reads this
    {
      ValidExcept({})
    }

    constructor (fields: seq<Field>, templateOf: map<int, int>, table: Table)
      ensures Valid()
      ensures this.fields == fields && this.templateOf == templateOf && this.table == table
      ensures locksCache == map[] && locksFlags == map[]
    {
      this.fields := fields;
      this.templateOf := templateOf;
      this.table := table;
      locksCache := map[];
      locksFlags := map[];
    }

    /** Drop a page's cache entries, or all of them for a falsy page. */
    method ResetCache(page: PageRef)
      requires Truthy(page) ==> ValidExcept({PageId(page)})
      modifies this
      ensures Valid()
      ensures table == old(table)
      ensures locksCache == Dropped(old(locksCache), page)
      ensures locksFlags == Dropped(old(locksFlags), page)
    {
      if Truthy(page) {
        var pageId := PageId(page);
        locksCache := locksCache - {pageId};
        locksFlags := locksFlags - {pageId};
      } else {
        locksCache := map[];
        locksFlags := map[];
      }
    }

    /** All locks of a page, field id => field name, read through the cache. */
    method GetLocks(page: PageRef) returns (locks: map<int, string>)
      requires Valid()
      modifies this
      ensures Valid()
      ensures table == old(table)
      ensures locks == PageLocks(fields, table, PageId(page))
      ensures locksCache == old(locksCache)[PageId(page) := locks]
      ensures locksFlags == old(locksFlags)[PageId(page) := PageFlags(table, PageId(page))]
    {
      var pageId := PageId(page);
      if pageId in locksCache {
        CachesHit(locksCache, locksFlags, LocksView(fields, table), FlagsView(table), pageId);
        return locksCache[pageId];
      }
      CachesStore(locksCache, locksFlags, LocksView(fields, table), FlagsView(table), pageId);
      locks := LoadPage(pageId);
      locksCache := locksCache[pageId := locks];
    }

    /** The uncached path of `getLocks`: read the page's rows one by one, filling
        the page's flags cache as it goes, and return field id => field name. */
    method LoadPage(pageId: int) returns (fieldNames: map<int, string>)
      modifies this
      ensures table == old(table) && locksCache == old(locksCache)
      ensures fieldNames == PageLocks(fields, table, pageId)
      ensures locksFlags == old(locksFlags)[pageId := PageFlags(table, pageId)]
    {
      fieldNames := map[];
      var rows := PageRows(table, pageId);
      var pending := rows.Keys;
      ghost var flags: map<int, int> := map[];
      locksFlags := locksFlags[pageId := map[]];
      while pending != {}
        invariant pending <= rows.Keys
        invariant table == old(table) && locksCache == old(locksCache)
        invariant locksFlags == old(locksFlags)[pageId := flags]
        invariant RowsRead(fields, table, pageId, pending, fieldNames, flags)
        decreases pending
      {
        var row :| row in pending;
        var fieldId := row.1;
        ReadRow(fields, table, pageId, pending, fieldNames, flags, row);
        fieldNames := fieldNames[fieldId := IdName(fields, fieldId)];
        locksFlags := locksFlags[pageId := locksFlags[pageId][fieldId := table[row]]];
        flags := flags[fieldId := table[row]];
        pending := pending - {row};
      }
      LoadedRows(fields, table, pageId, fieldNames, flags);
    }

    /** Whether a field is locked on a page, loading the page into the cache first. */
    method IsLocked(page: PageRef, field: FieldRef) returns (locked: bool)
      requires Valid()
      modifies this
      ensures Valid()
      ensures table == old(table)
      ensures locked <==> (PageId(page), FieldId(fields, field)) in table
      ensures locksCache == old(locksCache)[PageId(page) := PageLocks(fields, table, PageId(page))]
      ensures locksFlags == old(locksFlags)[PageId(page) := PageFlags(table, PageId(page))]
    {
      var pageId := PageId(page);
      var fieldId := FieldId(fields, field);
      if pageId !in locksCache {
        var _ := GetLocks(page);
      } else {
        CachesHit(locksCache, locksFlags, LocksView(fields, table), FlagsView(table), pageId);
      }
      locked := fieldId in locksCache[pageId];
      LockedIdsMember(table, pageId, fieldId);
    }

    /** Insert one lock; the insert fails, and nothing is stored, when the page
        already holds a lock on that field. */
    method AddLock(page: PageRef, field: FieldRef, flags: int) returns (ok: bool)
      requires Valid()
      modifies this
      ensures Valid()
      ensures ok <==> (PageId(page), FieldId(fields, field)) !in old(table)
      ensures table == if ok then old(table)[(PageId(page), FieldId(fields, field)) := flags] else old(table)
      ensures locksCache == Dropped(old(locksCache), page)
      ensures locksFlags == Dropped(old(locksFlags), page)
    {
      var pageId := PageId(page);
      ok := InsertRow((pageId, FieldId(fields, field)), flags);
      OtherPagesUnchanged(fields, old(table), table, pageId);
      ResetCache(page);
    }

    /** `INSERT INTO page_edit_lock_fields VALUES(...)`: refused when the primary
        key is taken already. */
    method InsertRow(key: Key, flags: int) returns (ok: bool)
      modifies this
      ensures ok <==> key !in old(table)
      ensures table == if ok then old(table)[key := flags] else old(table)
      ensures locksCache == old(locksCache) && locksFlags == old(locksFlags)
    {
      ok := key !in table;
      if ok {
        table := table[key := flags];
      }
    }

    /** `DELETE FROM page_edit_lock_fields WHERE pages_id=... AND fields_id=...`:
        reports whether a record was deleted. */
    method DeleteRow(key: Key) returns (removed: bool)
      modifies this
      ensures removed <==> key in old(table)
      ensures table == old(table) - {key}
      ensures locksCache == old(locksCache) && locksFlags == old(locksFlags)
    {
      removed := key in table;
      table := table - {key};
    }

    /** Insert a lock with flags 0 for each reference; a reference whose lock
        exists already, or that repeats an earlier one, adds nothing. */
    method AddLocks(page: PageRef, refs: seq<FieldRef>) returns (qty: nat)
      requires Valid()
      modifies this
      ensures Valid()
      ensures table == old(table) + ZeroLocks(PageId(page), IdsOf(fields, refs) - LockedIds(old(table), PageId(page)))
      ensures qty == |IdsOf(fields, refs) - LockedIds(old(table), PageId(page))|
      ensures locksCache == Dropped(old(locksCache), page)
      ensures locksFlags == Dropped(old(locksFlags), page)
    {
      var pageId := PageId(page);
      qty := InsertZeroLocks(pageId, refs);
      OtherPagesUnchanged(fields, old(table), table, pageId);
      ResetCache(page);
    }

    /** The insert loop of `addLocks`: one INSERT per reference, counting the ones that succeed. */
    method InsertZeroLocks(pageId: int, refs: seq<FieldRef>) returns (qty: nat)
      modifies this
      ensures table == old(table) + ZeroLocks(pageId, IdsOf(fields, refs) - LockedIds(old(table), pageId))
      ensures qty == |IdsOf(fields, refs) - LockedIds(old(table), pageId)|
      ensures locksCache == old(locksCache) && locksFlags == old(locksFlags)
    {
      qty := 0;
      ghost var t0 := table;
      ghost var added: set<int> := {};
      for i := 0 to |refs|
        invariant table == t0 + ZeroLocks(pageId, added)
        invariant added == IdsOf(fields, refs[..i]) - LockedIds(t0, pageId)
        invariant qty == |added|
        invariant locksCache == old(locksCache) && locksFlags == old(locksFlags)
      {
        var fieldId := FieldId(fields, refs[i]);
        ghost var before := table;
        var ok := InsertRow((pageId, fieldId), 0);
        InsertStep(fields, t0, before, table, pageId, refs, i, added, fieldId, ok);
        if ok {
          qty := qty + 1;
          added := added + {fieldId};
        }
      }
      assert refs[..|refs|] == refs;
    }

    /** Delete one lock; the result says whether a record was deleted. The cache
        is reset by page id, so page id 0 clears every cached page. */
    method RemoveLock(page: PageRef, field: FieldRef) returns (removed: bool)
      requires Valid()
      modifies this
      ensures Valid()
      ensures removed <==> (PageId(page), FieldId(fields, field)) in old(table)
      ensures table == old(table) - {(PageId(page), FieldId(fields, field))}
      ensures locksCache == Dropped(old(locksCache), PageNum(PageId(page)))
      ensures locksFlags == Dropped(old(locksFlags), PageNum(PageId(page)))
    {
      var pageId := PageId(page);
      removed := DeleteRow((pageId, FieldId(fields, field)));
      OtherPagesUnchanged(fields, old(table), table, pageId);
      ResetCache(PageNum(pageId));
    }

    /** Delete every lock of a page and return how many there were. */
    method RemoveAllLocksForPage(page: PageRef) returns (count: nat)
      requires Valid()
      modifies this
      ensures Valid()
      ensures table == old(table) - PageRows(old(table), PageId(page)).Keys
      ensures count == |LockedIds(old(table), PageId(page))|
      ensures LockedIds(table, PageId(page)) == {}
      ensures locksCache == Dropped(old(locksCache), PageNum(PageId(page)))
      ensures locksFlags == Dropped(old(locksFlags), PageNum(PageId(page)))
    {
      var pageId := PageId(page);
      var doomed := PageRows(table, pageId).Keys;
      ClearedPage(fields, table, pageId);
      table := table - doomed;
      count := |doomed|;
      ResetCache(PageNum(pageId));
    }

    /** Delete a field's locks on every page and return how many there were;
        every cached page is dropped. */
    method RemoveAllLocksForField(field: FieldRef) returns (count: nat)
      modifies this
      ensures Valid()
      ensures table == old(table) - FieldRecords(old(table), FieldId(fields, field))
      ensures count == |FieldRecords(old(table), FieldId(fields, field))|
      ensures locksCache == map[] && locksFlags == map[]
    {
      var doomed := FieldRecords(table, FieldId(fields, field));
      table := table - doomed;
      count := |doomed|;
      ResetCache(PageNull);
    }

    /** The flags stored with a lock, 0 when there is no such lock. */
    method GetLockFlags(page: PageRef, field: FieldRef) returns (flags: int)
      requires Valid()
      modifies this
      ensures Valid()
      ensures table == old(table)
      ensures flags == if (PageId(page), FieldId(fields, field)) in table then table[(PageId(page), FieldId(fields, field))] else 0
      ensures locksCache == old(locksCache)[PageId(page) := PageLocks(fields, table, PageId(page))]
      ensures locksFlags == old(locksFlags)[PageId(page) := PageFlags(table, PageId(page))]
    {
      var pageId := PageId(page);
      var fieldId := FieldId(fields, field);
      PageFlagsMember(table, pageId, fieldId);
      if !(pageId in locksFlags && fieldId in locksFlags[pageId]) {
        var _ := GetLocks(PageNum(pageId));
        if fieldId !in locksFlags[pageId] {
          return 0;
        }
      }
      flags := locksFlags[pageId][fieldId];
    }

    /** Delete a field's locks on the pages using one of the given templates (the
        templates of a fieldgroup) and return how many were deleted. When there
        are none it returns at once and the caches are kept; otherwise every
        cached page is dropped. */
    method RemoveAllLocksForFieldInFieldgroup(field: Field, templates: seq<int>) returns (numRows: nat)
      requires Valid()
      modifies this
      ensures Valid()
      ensures table == old(table) - FieldgroupRecords(old(table), templateOf, field.id, templates)
      ensures numRows == |FieldgroupRecords(old(table), templateOf, field.id, templates)|
      ensures FieldgroupRecords(old(table), templateOf, field.id, templates) == {} ==>
                locksCache == old(locksCache) && locksFlags == old(locksFlags)
      ensures FieldgroupRecords(old(table), templateOf, field.id, templates) != {} ==>
                locksCache == map[] && locksFlags == map[]
    {
      var rows := FieldgroupRows(field.id, templates);
      if |rows| == 0 {
        return 0;
      }
      assert rows[0] in Elements(rows);
      numRows := DeleteRows(rows);
      ResetCache(PageNull);
    }

    /** The SELECT loop of `removeAllLocksForFieldInFieldgroup`: for each template
        in turn, the field's records on pages of that template. */
    method FieldgroupRows(fid: int, templates: seq<int>) returns (rows: seq<Key>)
      ensures Elements(rows) == FieldgroupRecords(table, templateOf, fid, templates)
    {
      rows := [];
      for j := 0 to |templates|
        invariant Elements(rows) == FieldgroupRecords(table, templateOf, fid, templates[..j])
      {
        var matched := TemplateRecords(table, templateOf, fid, templates[j]);
        FieldgroupRecordsSnoc(table, templateOf, fid, templates, j);
        ghost var before := Elements(rows);
        while matched != {}
          invariant Elements(rows) + matched == before + TemplateRecords(table, templateOf, fid, templates[j])
          decreases matched
        {
          var row :| row in matched;
          ElementsSnoc(rows, row);
          rows := rows + [row];
          matched := matched - {row};
        }
      }
      assert templates[..|templates|] == templates;
    }

    /** The DELETE loop of `removeAllLocksForFieldInFieldgroup`: one delete per
        collected row, adding up the rows each one deletes. */
    method DeleteRows(rows: seq<Key>) returns (numRows: nat)
      requires Elements(rows) <= table.Keys
      modifies this
      ensures table == old(table) - Elements(rows)
      ensures numRows == |Elements(rows)|
      ensures locksCache == old(locksCache) && locksFlags == old(locksFlags)
    {
      numRows := 0;
      for i := 0 to |rows|
        invariant table == old(table) - Elements(rows[..i])
        invariant numRows == |Elements(rows[..i])|
        invariant locksCache == old(locksCache) && locksFlags == old(locksFlags)
      {
        assert rows[..i + 1] == rows[..i] + [rows[i]];
        ElementsSnoc(rows[..i], rows[i]);
        ghost var seen := Elements(rows[..i]);
        assert Elements(rows[..i + 1]) == seen + {rows[i]};
        assert rows[i] in Elements(rows);
        var removed := DeleteRow(rows[i]);
        if removed {
          assert |seen + {rows[i]}| == |seen| + 1;
          numRows := numRows + 1;
        } else {
          assert seen + {rows[i]} == seen;
        }
      }
      assert rows[..|rows|] == rows;
    }

    /** The field names of one page, read row by row as `getAllLocks` does. */
    method PageNames(pageId: int) returns (names: map<int, string>)
      ensures names == PageLocks(fields, table, pageId)
    {
      names := map[];
      var rows := PageRows(table, pageId);
      var pending := rows.Keys;
      ghost var flags: map<int, int> := map[];
      while pending != {}
        invariant pending <= rows.Keys
        invariant RowsRead(fields, table, pageId, pending, names, flags)
        decreases pending
      {
        var row :| row in pending;
        ReadRow(fields, table, pageId, pending, names, flags, row);
        names := names[row.1 := IdName(fields, row.1)];
        flags := flags[row.1 := table[row]];
        pending := pending - {row};
      }
      LoadedRows(fields, table, pageId, names, flags);
    }

    /** Every locked page in ascending id order, with its path and its locks. */
    method GetAllLocks(pathOf: int -> string) returns (items: seq<LockReport>)
      ensures forall i, j :: 0 <= i < j < |items| ==> items[i].id < items[j].id
      ensures ReportIds(items) == LockedPages(table)
      ensures forall i :: 0 <= i < |items| ==>
                items[i] == LockReport(items[i].id, pathOf(items[i].id), PageLocks(fields, table, items[i].id))
    {
      items := [];
      var pending := LockedPages(table);
      while pending != {}
        invariant pending <= LockedPages(table)
        invariant Inventory(fields, table, pathOf, items, pending)
        decreases pending
      {
        ghost var least := Minimum(pending);
        var pid :| pid in pending && forall p :: p in pending ==> pid <= p;
        var names := PageNames(pid);
        InventoryStep(fields, table, pathOf, items, pending, pid);
        items := items + [LockReport(pid, pathOf(pid), names)];
        pending := pending - {pid};
      }
    }
  }
}
