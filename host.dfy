/**
  The host framework's field registry, as far as the lock store consults it:
  a list of field definitions searched by name or by id, first match wins.
 */
module Host {
  import opened Wrappers

  /** A field definition: saved fields have a positive id. */
  datatype Field = Field(id: nat, name: string)

  /** `$fields->get($name)` */
  function FindByName(fields: seq<Field>, name: string): (r: Option<Field>)
    ensures r.Some? ==> r.value in fields && r.value.name == name
    ensures r.None? ==> forall f :: f in fields ==> f.name != name
  {
    if fields == [] then None
    else if fields[0].name == name then Some(fields[0])
    else FindByName(fields[1..], name)
  }

  /** `$fields->get($id)` */
  function FindById(fields: seq<Field>, id: int): (r: Option<Field>)
    ensures r.Some? ==> r.value in fields && r.value.id == id
    ensures r.None? ==> forall f :: f in fields ==> f.id != id
  {
    if fields == [] then None
    else if fields[0].id == id then Some(fields[0])
    else FindById(fields[1..], id)
  }

  /** Lookup by id returns the first field registered with that id. */
  lemma {:induction false} FindByIdFirst(fields: seq<Field>, id: int, i: int)
    requires 0 <= i < |fields| && fields[i].id == id
    requires forall j :: 0 <= j < i ==> fields[j].id != id
    ensures FindById(fields, id) == Some(fields[i])
  {
    if i > 0 {
      assert fields[0].id != id;
      forall j | 0 <= j < i - 1
        ensures fields[1..][j].id != id
      {
        assert fields[1..][j] == fields[j + 1];
      }
      FindByIdFirst(fields[1..], id, i - 1);
    }
  }

  /** The same, for every index at once. */
  lemma FirstById(fields: seq<Field>, id: int)
    ensures forall i ::
              (0 <= i < |fields| && fields[i].id == id && (forall j :: 0 <= j < i ==> fields[j].id != id))
              ==> FindById(fields, id) == Some(fields[i])
  {
    forall i | 0 <= i < |fields| && fields[i].id == id && (forall j :: 0 <= j < i ==> fields[j].id != id) {
      FindByIdFirst(fields, id, i);
    }
  }

  /** The registry's own invariant: no two fields share an id or a name. */
  ghost predicate UniqueFields(fields: seq<Field>) {
    forall i, j :: 0 <= i < j < |fields| ==> fields[i].id != fields[j].id && fields[i].name != fields[j].name
  }

  /** In a registry with unique names and ids, a field is found by its own name and by its own id. */
  lemma {:induction false} FindOwnField(fields: seq<Field>, f: Field)
    requires UniqueFields(fields) && f in fields
    ensures FindByName(fields, f.name) == Some(f)
    ensures FindById(fields, f.id) == Some(f)
  {
    if fields[0] != f {
      assert f in fields[1..];
      var k :| 0 <= k < |fields| && fields[k] == f;
      assert k > 0;
      assert fields[0].name != f.name && fields[0].id != f.id;
      assert UniqueFields(fields[1..]) by {
        forall i, j | 0 <= i < j < |fields[1..]|
          ensures fields[1..][i].id != fields[1..][j].id && fields[1..][i].name != fields[1..][j].name
        {
          assert fields[1..][i] == fields[i + 1] && fields[1..][j] == fields[j + 1];
        }
      }
      FindOwnField(fields[1..], f);
    }
  }
}
