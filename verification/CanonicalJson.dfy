/** Canonical JSON: `canonical_json` of crates/patchhive-product-core/src/approvals.rs is a complete normal form. */
module CanonicalJson {
  import opened Ordering

  /** A JSON value as parsed: object members are a list in the order they were written. */
  datatype Json =
    | Null
    | Bool(b: bool)
    | Number(digits: string)
    | Str(text: string)
    | Arr(items: Items)
    | Obj(fields: Fields)

  datatype Items = NoItems | Item(head: Json, rest: Items)

  datatype Fields = NoFields | Field(key: string, value: Json, rest: Fields)

  function Canonical(j: Json): Json {
    match j
    case Arr(items) => Arr(CanonicalItems(items))
    case Obj(fields) => Obj(CanonicalFields(fields))
    case _ => j
  }

  function CanonicalItems(items: Items): Items {
    match items
    case NoItems => NoItems
    case Item(head, rest) => Item(Canonical(head), CanonicalItems(rest))
  }

  function InsertUnlessPresent(key: string, value: Json, sorted: Fields): Fields {
    match sorted
    case NoFields => Field(key, value, NoFields)
    case Field(k, v, rest) =>
      if key == k then sorted
      else if Less(key, k) then Field(key, value, sorted)
      else Field(k, v, InsertUnlessPresent(key, value, rest))
  }

  /** Collecting into a `BTreeMap`: sorted by key, a later member replacing an earlier one of the same key. */
  function CanonicalFields(fields: Fields): Fields {
    match fields
    case NoFields => NoFields
    case Field(key, value, rest) => InsertUnlessPresent(key, Canonical(value), CanonicalFields(rest))
  }

  // ---------------------------------------------------------------------------------------
  // What a JSON value means: objects are maps, arrays are sequences.

  datatype Meaning =
    | NullMeaning
    | BoolMeaning(b: bool)
    | NumberMeaning(digits: string)
    | StrMeaning(text: string)
    | ArrMeaning(items: seq<Meaning>)
    | ObjMeaning(members: map<string, Meaning>)

  function MeaningOf(j: Json): Meaning {
    match j
    case Null => NullMeaning
    case Bool(b) => BoolMeaning(b)
    case Number(digits) => NumberMeaning(digits)
    case Str(text) => StrMeaning(text)
    case Arr(items) => ArrMeaning(ItemMeanings(items))
    case Obj(fields) => ObjMeaning(Members(fields))
  }

  function ItemMeanings(items: Items): seq<Meaning> {
    match items
    case NoItems => []
    case Item(head, rest) => [MeaningOf(head)] + ItemMeanings(rest)
  }

  function Members(fields: Fields): map<string, Meaning> {
    match fields
    case NoFields => map[]
    case Field(key, value, rest) =>
      var members := Members(rest);
      if key in members then members else members[key := MeaningOf(value)]
  }

  // ---------------------------------------------------------------------------------------
  // Normal forms.

  /** Every object's keys strictly ascend, at every depth. */
  ghost predicate IsCanonical(j: Json) {
    match j
    case Arr(items) => ItemsCanonical(items)
    case Obj(fields) => FieldsCanonical(fields)
    case _ => true
  }

  ghost predicate ItemsCanonical(items: Items) {
    items.Item? ==> IsCanonical(items.head) && ItemsCanonical(items.rest)
  }

  ghost predicate FieldsCanonical(fields: Fields) {
    fields.Field? ==>
      && IsCanonical(fields.value) && FieldsCanonical(fields.rest)
      && (fields.rest.Field? ==> Less(fields.key, fields.rest.key))
  }

  /** The first key of a sorted object comes before all its other keys. */
  lemma {:induction false} FirstKeyIsLeast(fields: Fields, key: string)
    requires FieldsCanonical(fields) && fields.Field?
    requires key in Members(fields.rest)
    ensures Less(fields.key, key)
  {
    if key == fields.rest.key {
    } else {
      FirstKeyIsLeast(fields.rest, key);
      LessTransitive(fields.key, fields.rest.key, key);
    }
  }

  lemma FirstKeyIsFresh(fields: Fields)
    requires FieldsCanonical(fields) && fields.Field?
    ensures fields.key !in Members(fields.rest)
  {
    if fields.key in Members(fields.rest) {
      FirstKeyIsLeast(fields, fields.key);
      LessIrreflexive(fields.key);
    }
  }

  lemma KeyBeforeFirst(sorted: Fields, key: string)
    requires FieldsCanonical(sorted) && sorted.Field? && Less(key, sorted.key)
    ensures key !in Members(sorted)
  {
    LessIrreflexive(key);
    if key in Members(sorted.rest) {
      FirstKeyIsLeast(sorted, key);
      LessAsymmetric(key, sorted.key);
    }
  }

  lemma {:induction false} InsertCanonical(key: string, value: Json, sorted: Fields)
    requires FieldsCanonical(sorted) && IsCanonical(value)
    ensures var r := InsertUnlessPresent(key, value, sorted);
      r.Field? && FieldsCanonical(r) && (r.key == key || (sorted.Field? && r.key == sorted.key))
  {
    hide IsCanonical, Less;
    match sorted
    case NoFields =>
    case Field(k, v, rest) =>
      if key != k && !Less(key, k) {
        LessTotal(key, k);
        InsertCanonical(key, value, rest);
      }
  }

  lemma NoMembers()
    ensures Members(NoFields) == map[]
  {}

  lemma MembersOfField(key: string, value: Json, rest: Fields)
    requires key !in Members(rest)
    ensures Members(Field(key, value, rest)) == Members(rest)[key := MeaningOf(value)]
  {
    hide MeaningOf;
  }

  lemma {:induction false} InsertMembers(key: string, value: Json, sorted: Fields)
    requires FieldsCanonical(sorted)
    ensures Members(InsertUnlessPresent(key, value, sorted))
      == if key in Members(sorted) then Members(sorted) else Members(sorted)[key := MeaningOf(value)]
  {
    hide IsCanonical, MeaningOf, Less, Members;
    match sorted
    case NoFields =>
      NoMembers();
      MembersOfField(key, value, NoFields);
    case Field(k, v, rest) =>
      FirstKeyIsFresh(sorted);
      MembersOfField(k, v, rest);
      if key != k {
        if Less(key, k) {
          KeyBeforeFirst(sorted, key);
          MembersOfField(key, value, sorted);
        } else {
          InsertMembers(key, value, rest);
          MembersOfField(k, v, InsertUnlessPresent(key, value, rest));
        }
      }
  }

  /** The canonical form is a normal form and means the same. */
  lemma {:induction false} CanonicalNormalises(j: Json)
    ensures IsCanonical(Canonical(j)) && MeaningOf(Canonical(j)) == MeaningOf(j)
  {
    match j
    case Arr(items) => ItemsNormalise(items);
    case Obj(fields) => FieldsNormalise(fields);
    case _ =>
  }

  lemma {:induction false} ItemsNormalise(items: Items)
    ensures ItemsCanonical(CanonicalItems(items)) && ItemMeanings(CanonicalItems(items)) == ItemMeanings(items)
  {
    match items
    case NoItems =>
    case Item(head, rest) =>
      CanonicalNormalises(head);
      ItemsNormalise(rest);
  }

  lemma {:induction false} FieldsNormalise(fields: Fields)
    ensures FieldsCanonical(CanonicalFields(fields)) && Members(CanonicalFields(fields)) == Members(fields)
  {
    match fields
    case NoFields =>
    case Field(key, value, rest) =>
      CanonicalNormalises(value);
      FieldsNormalise(rest);
      InsertCanonical(key, Canonical(value), CanonicalFields(rest));
      InsertMembers(key, Canonical(value), CanonicalFields(rest));
  }

  /** Normal forms that mean the same are the same. */
  lemma {:induction false} NormalFormUnique(a: Json, b: Json)
    requires IsCanonical(a) && IsCanonical(b) && MeaningOf(a) == MeaningOf(b)
    ensures a == b
  {
    match a
    case Arr(items) => ItemsUnique(items, b.items);
    case Obj(fields) => FieldsUnique(fields, b.fields);
    case _ =>
  }

  lemma {:induction false} ItemsUnique(a: Items, b: Items)
    requires ItemsCanonical(a) && ItemsCanonical(b) && ItemMeanings(a) == ItemMeanings(b)
    ensures a == b
  {
    match a
    case NoItems => assert b.NoItems?;
    case Item(head, rest) =>
      assert b.Item?;
      assert ItemMeanings(a)[0] == ItemMeanings(b)[0];
      assert ItemMeanings(a)[1..] == ItemMeanings(rest) && ItemMeanings(b)[1..] == ItemMeanings(b.rest);
      NormalFormUnique(head, b.head);
      ItemsUnique(rest, b.rest);
  }

  lemma {:induction false} FieldsUnique(a: Fields, b: Fields)
    requires FieldsCanonical(a) && FieldsCanonical(b) && Members(a) == Members(b)
    ensures a == b
  {
    assert b.Field? ==> b.key in Members(b);
    match a
    case NoFields =>
    case Field(key, value, rest) =>
      assert key in Members(b);
      FirstKeyIsFresh(a);
      FirstKeyIsFresh(b);
      if key != b.key {
        FirstKeyIsLeast(a, b.key);
        FirstKeyIsLeast(b, key);
        LessAsymmetric(key, b.key);
      }
      assert Members(rest) == Members(a) - {key} && Members(b.rest) == Members(b) - {key};
      assert MeaningOf(value) == Members(a)[key] == Members(b)[key] == MeaningOf(b.value);
      NormalFormUnique(value, b.value);
      FieldsUnique(rest, b.rest);
  }

  /** Two values have the same canonical form exactly when they mean the same. */
  lemma CanonicalExactlyWhenSameMeaning(a: Json, b: Json)
    ensures Canonical(a) == Canonical(b) <==> MeaningOf(a) == MeaningOf(b)
  {
    CanonicalNormalises(a);
    CanonicalNormalises(b);
    if MeaningOf(a) == MeaningOf(b) {
      NormalFormUnique(Canonical(a), Canonical(b));
    }
  }

  lemma CanonicalIdempotent(j: Json)
    ensures Canonical(Canonical(j)) == Canonical(j)
  {
    CanonicalNormalises(j);
    CanonicalExactlyWhenSameMeaning(Canonical(j), j);
  }
}
