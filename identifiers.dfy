/**
  Translation between the references the module accepts (Field objects,
  integer ids, names, numeric strings) and the integer field ids stored in the
  lock table. Five page properties are stored under the negative ids -1..-5.
 */
module Identifiers {
  import opened Wrappers
  import opened PhpValues
  import opened Host

  /** The page properties that can be locked, by their negative id. */
  const LockProperties: map<int, string> :=
    map[-1 := "name", -2 := "template", -3 := "parent_id", -4 := "status", -5 := "delete_page"]

  /** Alternate spellings of two of the properties. */
  const AltPropertyNames: map<string, string> :=
    map["templates_id" := "template", "template_id" := "template", "parent" := "parent_id"]

  /** The strings PHP converts to one of the integer keys of LockProperties
      when they are used as an array key. */
  const PropertyIdStrings: map<string, int> :=
    map["-1" := -1, "-2" := -2, "-3" := -3, "-4" := -4, "-5" := -5]

  /** What the module accepts where it expects a field: a Field object, an integer or a string. */
  datatype FieldRef = FieldObj(field: Field) | IdRef(id: int) | NameRef(name: string)

  /** What the module accepts where it expects a page: a Page object (its id),
      an integer, a string, or nothing at all (PHP null). */
  datatype PageRef = PageObj(id: nat) | PageNum(n: int) | PageText(s: string) | PageNull

  /** The id under which a property name is listed, 0 when it is not a property name. */
  function PropertyId(name: string): (r: int)
    ensures r != 0 ==> r in LockProperties && LockProperties[r] == name
    ensures r == 0 ==> name !in LockProperties.Values
  {
    if name == "name" then -1
    else if name == "template" then -2
    else if name == "parent_id" then -3
    else if name == "status" then -4
    else if name == "delete_page" then -5
    else 0
  }

  /** The field id a reference resolves to; 0 means "not found", which callers
      still store if they are given it. */
  function FieldId(fields: seq<Field>, ref: FieldRef): (r: int)
    ensures r < 0 ==> r in LockProperties
  {
    match ref
    case FieldObj(f) => f.id
    case IdRef(n) =>
      if n >= 0 then n
      else if n in LockProperties then n
      else 0
    case NameRef(s) =>
      if IsDigits(s) then DigitsValue(s)
      else if s in PropertyIdStrings then PropertyIdStrings[s]
      else
        var canonical := if s in AltPropertyNames then AltPropertyNames[s] else s;
        var key := PropertyId(canonical);
        if key != 0 then key
        else match FindByName(fields, canonical)
          case Some(f) => f.id
          case None => 0
  }

  /** `fieldName` of an integer id: the property name of a negative id, the
      registry name of a non-negative one, blank when the id is unknown. */
  function IdName(fields: seq<Field>, n: int): (r: string)
    ensures n in LockProperties ==> r == LockProperties[n]
    ensures n < 0 && n !in LockProperties ==> r == ""
    ensures n >= 0 && r != "" ==> exists f :: f in fields && f.id == n && f.name == r
    ensures n >= 0 && (exists f :: f in fields && f.id == n) ==> exists f :: f in fields && f.id == n && f.name == r
    ensures n >= 0 && (forall f :: f in fields ==> f.id != n) ==> r == ""
    ensures forall i ::
              (0 <= i < |fields| && fields[i].id == n && (forall j :: 0 <= j < i ==> fields[j].id != n))
              ==> r == fields[i].name
  {
    FirstById(fields, n);
    if n < 0 then (if n in LockProperties then LockProperties[n] else "")
    else match FindById(fields, n) case Some(f) => f.name case None => ""
  }

  /** The name a reference stands for: the property name of a negative id, the
      registry name of a non-negative id, blank when the id is unknown; any
      other string is returned as given, an alternate property name as its
      canonical name. */
  function FieldName(fields: seq<Field>, ref: FieldRef): (r: string)
    ensures ref.IdRef? && ref.id in LockProperties ==> r == LockProperties[ref.id]
    ensures ref.IdRef? && ref.id < 0 && ref.id !in LockProperties ==> r == ""
    ensures ref.IdRef? && ref.id >= 0 && r != "" ==> exists f :: f in fields && f.id == ref.id && f.name == r
    ensures ref.IdRef? && ref.id >= 0 && (exists f :: f in fields && f.id == ref.id) ==>
              exists f :: f in fields && f.id == ref.id && f.name == r
    ensures ref.IdRef? && ref.id >= 0 && (forall f :: f in fields ==> f.id != ref.id) ==> r == ""
    ensures forall i ::
              (ref.IdRef? && 0 <= i < |fields| && fields[i].id == ref.id && (forall j :: 0 <= j < i ==> fields[j].id != ref.id))
              ==> r == fields[i].name
    ensures ref.FieldObj? ==> r == ref.field.name
    ensures ref.NameRef? && PlainName(ref.name) && (ref.name == [] || ref.name[0] != '-') ==> r == ref.name
  {
    match ref
    case FieldObj(f) => f.name
    case IdRef(n) => IdName(fields, n)
    case NameRef(s) =>
      if |s| > 0 && s[0] == '-' then
        // the string has been cast to an integer by now, so an unknown id is blank
        var n := IntCast(s);
        if n in LockProperties then LockProperties[n] else ""
      else if IsDigits(s) then IdName(fields, DigitsValue(s))
      else if s in AltPropertyNames then AltPropertyNames[s]
      else s
  }

  /** `(bool) $page` */
  predicate Truthy(page: PageRef) {
    match page
    case PageObj(_) => true
    case PageNum(n) => n != 0
    case PageText(s) => !EmptyString(s)
    case PageNull => false
  }

  /** The page id a reference resolves to, 0 when it names no page. */
  function PageId(page: PageRef): (r: int)
    ensures r < 0 ==> page.PageNum?
    ensures page.PageObj? ==> r == page.id
    ensures page.PageNum? ==> r == page.n
    ensures page.PageText? && IsDigits(page.s) ==> r == DigitsValue(page.s)
    ensures (page.PageText? && !IsDigits(page.s)) || page.PageNull? ==> r == 0
  {
    match page
    case PageNum(n) => n
    case PageObj(id) => id
    case PageText(s) => if IsDigits(s) then DigitsValue(s) else 0
    case PageNull => 0
  }

  /** A negative field id is always one of the property ids, and a positive id
      found for a name that is not made of digits belongs to a registered field
      of that name. */
  lemma FieldIdRange(fields: seq<Field>, ref: FieldRef)
    ensures FieldId(fields, ref) < 0 ==> FieldId(fields, ref) in LockProperties
    ensures ref.NameRef? && !IsDigits(ref.name) && FieldId(fields, ref) > 0 ==>
              exists f :: f in fields && f.name == ref.name && f.id == FieldId(fields, ref)
  {
  }

  /** The name under which the page editor's form holds a field or property. */
  function FormFieldName(fieldName: string): (r: string)
    ensures r == "_pw_page_name" <==> fieldName == "name" || fieldName == "_pw_page_name"
    ensures fieldName != "name" ==> r == fieldName
  {
    if fieldName == "name" then "_pw_page_name" else fieldName
  }

  /** Two different locks never land on the same form input (the page editor
      reserves `_pw_page_name` for the page name). */
  lemma FormFieldNameInjective(a: string, b: string)
    requires a != b && a != "_pw_page_name" && b != "_pw_page_name"
    ensures FormFieldName(a) != FormFieldName(b)
  {
  }

  /** A name a field can have without being read as something else: not digits,
      not a property id, not an alternate or canonical property name. */
  predicate PlainName(name: string) {
    !IsDigits(name) && name !in PropertyIdStrings && name !in AltPropertyNames && PropertyId(name) == 0
  }

  lemma NotDigits(s: string, i: nat)
    requires i < |s| && !IsDigit(s[i])
    ensures !IsDigits(s)
  {
  }

  /** Each property id, given as an integer or as its name, resolves to itself,
      and naming it gives back the canonical property name. */
  lemma PropertyRoundTrip(fields: seq<Field>, k: int)
    requires k in LockProperties
    ensures FieldId(fields, IdRef(k)) == k
    ensures IdName(fields, k) == LockProperties[k]
    ensures FieldId(fields, NameRef(LockProperties[k])) == k
    ensures FieldId(fields, NameRef(IdName(fields, k))) == k
  {
    var name := LockProperties[k];
    NotDigits(name, 0);
  }

  /** The alternate names resolve to the ids of their canonical properties. */
  lemma AlternateNames(fields: seq<Field>)
    ensures FieldId(fields, NameRef("templates_id")) == FieldId(fields, NameRef("template")) == -2
    ensures FieldId(fields, NameRef("template_id")) == -2
    ensures FieldId(fields, NameRef("parent")) == FieldId(fields, NameRef("parent_id")) == -3
    ensures FieldName(fields, NameRef("templates_id")) == FieldName(fields, NameRef("template_id")) == "template"
    ensures FieldName(fields, NameRef("parent")) == "parent_id"
  {
    NotDigits("templates_id", 0);
    NotDigits("template_id", 0);
    NotDigits("template", 0);
    NotDigits("parent", 0);
    NotDigits("parent_id", 0);
  }

  /** A registered field with a plain name round-trips through its name, and
      the Field object resolves to the same id as its name. */
  lemma FieldRoundTrip(fields: seq<Field>, f: Field)
    requires UniqueFields(fields) && f in fields && f.id > 0 && PlainName(f.name)
    ensures IdName(fields, f.id) == f.name
    ensures FieldId(fields, NameRef(IdName(fields, f.id))) == f.id
    ensures FieldId(fields, NameRef(f.name)) == FieldId(fields, FieldObj(f))
  {
    FindOwnField(fields, f);
  }

  /** A name that is neither digits, nor a property, nor registered resolves to 0. */
  lemma UnknownNameIsZero(fields: seq<Field>, s: string)
    requires PlainName(s) && forall f :: f in fields ==> f.name != s
    ensures FieldId(fields, NameRef(s)) == 0
  {
  }

  /** A digit string is read as the field id it spells. */
  lemma DigitStringIsId(fields: seq<Field>, s: string)
    requires IsDigits(s)
    ensures FieldId(fields, NameRef(s)) == DigitsValue(s) >= 0
  {
  }

  /** A stored field id survives being turned into its name and back, as
      cloning a page's locks requires. */
  predicate RoundTrips(fields: seq<Field>, id: int) {
    FieldId(fields, NameRef(IdName(fields, id))) == id
  }

  /** The property ids and the ids of registered fields with plain names round-trip. */
  lemma RoundTripping(fields: seq<Field>, id: int)
    requires UniqueFields(fields)
    requires id in LockProperties || exists f :: f in fields && f.id == id && id > 0 && PlainName(f.name)
    ensures RoundTrips(fields, id)
  {
    if id in LockProperties {
      PropertyRoundTrip(fields, id);
    } else {
      var f :| f in fields && f.id == id && id > 0 && PlainName(f.name);
      FieldRoundTrip(fields, f);
    }
  }

  /** The id of a field that is no longer registered does not round-trip: it
      has a blank name, and a blank name resolves to id 0. */
  lemma UnregisteredBecomesZero(fields: seq<Field>, id: int)
    requires id > 0 && forall f :: f in fields ==> f.id != id && f.name != ""
    ensures IdName(fields, id) == ""
    ensures FieldId(fields, NameRef(IdName(fields, id))) == 0
    ensures !RoundTrips(fields, id)
  {
  }
}
