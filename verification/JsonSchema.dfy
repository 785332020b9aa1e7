/**
 * Normalisation of tool-input JSON schemas (src/utils/json-schema.ts), related to
 * what the schemas accept under JSON Schema draft 2020-12.
 */
module JsonSchema {
  import opened Text

  // ---------------------------------------------------------------- values and schemas

  datatype Json = JNull | JBool(b: bool) | JNumber(n: real) | JString(s: string) | JArray(items: seq<Json>) | JObject(members: map<string, Json>)

  datatype TypeName = StringT | NumberT | IntegerT | BooleanT | NullT | ObjectT | ArrayT

  /** One type, or the older array of types. */
  datatype TypeField = NoType | Single(t: TypeName) | Union(ts: seq<TypeName>)

  datatype Properties = NoProperties | Properties(m: map<string, Schema>)

  datatype Items = NoItems | ItemsAll(schema: Schema) | ItemsTuple(schemas: seq<Schema>)

  datatype Additional = NoAdditional | Allow(b: bool) | AdditionalSchema(schema: Schema)

  datatype Variants = NoVariants | Variants(list: seq<Schema>)

  /** Array keywords, which belong beside an array type. */
  datatype ArrayKeywords = ArrayKeywords(items: Items, minItems: Option<nat>, maxItems: Option<nat>, uniqueItems: Option<bool>)

  /** Keywords that normalisation copies unchanged. */
  datatype Copied = Copied(
    enumeration: Option<seq<Json>>, constant: Option<Json>,
    minimum: Option<real>, maximum: Option<real>, minLength: Option<nat>, maxLength: Option<nat>)

  datatype Schema = Schema(
    typ: TypeField, properties: Properties, required: Option<seq<string>>, additional: Additional, arrays: ArrayKeywords,
    anyOf: Variants, oneOf: Variants, allOf: Variants, format: Option<string>, copied: Copied)

  const NO_ARRAYS := ArrayKeywords(NoItems, None, None, None)
  const EMPTY := Schema(NoType, NoProperties, None, NoAdditional, NO_ARRAYS, NoVariants, NoVariants, NoVariants, None,
                        Copied(None, None, None, None, None, None))

  // ---------------------------------------------------------------- what a schema accepts

  predicate HasType(v: Json, t: TypeName) {
    match t
    case StringT => v.JString?
    case NumberT => v.JNumber?
    case IntegerT => v.JNumber? && v.n.Floor as real == v.n
    case BooleanT => v.JBool?
    case NullT => v.JNull?
    case ObjectT => v.JObject?
    case ArrayT => v.JArray?
  }

  predicate AcceptsType(typ: TypeField, v: Json) {
    match typ
    case NoType => true
    case Single(t) => HasType(v, t)
    case Union(ts) => exists i :: 0 <= i < |ts| && HasType(v, ts[i])
  }

  predicate AcceptsCopied(c: Copied, v: Json) {
    && (c.enumeration.Some? ==> v in c.enumeration.value)
    && (c.constant.Some? ==> v == c.constant.value)
    && (v.JNumber? && c.minimum.Some? ==> c.minimum.value <= v.n)
    && (v.JNumber? && c.maximum.Some? ==> v.n <= c.maximum.value)
    && (v.JString? && c.minLength.Some? ==> c.minLength.value <= |v.s|)
    && (v.JString? && c.maxLength.Some? ==> |v.s| <= c.maxLength.value)
  }

  predicate Declares(properties: Properties, key: string) {
    properties.Properties? && key in properties.m
  }

  predicate AcceptsRequired(required: Option<seq<string>>, v: Json) {
    v.JObject? && required.Some? ==> forall i :: 0 <= i < |required.value| ==> required.value[i] in v.members
  }

  predicate AcceptsLengths(a: ArrayKeywords, v: Json) {
    v.JArray? ==>
      && (a.minItems.Some? ==> a.minItems.value <= |v.items|)
      && (a.maxItems.Some? ==> |v.items| <= a.maxItems.value)
      && (a.uniqueItems == Some(true) ==> forall i, j :: 0 <= i < j < |v.items| ==> v.items[i] != v.items[j])
  }

  predicate Accepts(s: Schema, v: Json)
    decreases s, 1
  {
    AcceptsType(s.typ, v) && AcceptsCopied(s.copied, v) && AcceptsRequired(s.required, v) && AcceptsLengths(s.arrays, v)
    && AcceptsMembers(s, v) && AcceptsItems(s, v) && AcceptsAnyOf(s, v) && AcceptsOneOf(s, v) && AcceptsAllOf(s, v)
  }

  predicate AcceptsMembers(s: Schema, v: Json)
    decreases s, 0
  {
    v.JObject? ==>
      && (s.properties.Properties? ==> forall k :: k in s.properties.m && k in v.members ==> Accepts(s.properties.m[k], v.members[k]))
      && (s.additional == Allow(false) ==> forall k :: k in v.members ==> Declares(s.properties, k))
      && (s.additional.AdditionalSchema? ==>
            forall k :: k in v.members && !Declares(s.properties, k) ==> Accepts(s.additional.schema, v.members[k]))
  }

  predicate AcceptsItems(s: Schema, v: Json)
    decreases s, 0
  {
    v.JArray? ==>
      match s.arrays.items
      case NoItems => true
      case ItemsAll(schema) => forall i :: 0 <= i < |v.items| ==> Accepts(schema, v.items[i])
      case ItemsTuple(schemas) => forall i :: 0 <= i < |v.items| && i < |schemas| ==> Accepts(schemas[i], v.items[i])
  }

  predicate AcceptsAnyOf(s: Schema, v: Json)
    decreases s, 0
  {
    s.anyOf.Variants? ==> exists i :: 0 <= i < |s.anyOf.list| && Accepts(s.anyOf.list[i], v)
  }

  predicate AcceptsOneOf(s: Schema, v: Json)
    decreases s, 0
  {
    s.oneOf.Variants? ==> exists i :: 0 <= i < |s.oneOf.list| && AcceptsOnly(s.oneOf.list, i, v)
  }

  /** The schema at `i` is the only one of the list that accepts. */
  predicate AcceptsOnly(list: seq<Schema>, i: int, v: Json)
    decreases list, 0
  {
    0 <= i < |list| && Accepts(list[i], v) && forall j :: 0 <= j < |list| && j != i ==> !Accepts(list[j], v)
  }

  predicate AcceptsAllOf(s: Schema, v: Json)
    decreases s, 0
  {
    s.allOf.Variants? ==> forall i :: 0 <= i < |s.allOf.list| ==> Accepts(s.allOf.list[i], v)
  }

  // ---------------------------------------------------------------- the transform of one node

  const SUPPORTED_FORMATS: set<string> :=
    {"date-time", "time", "date", "duration", "email", "hostname", "ipv4", "ipv6", "uuid"}

  predicate HasObjectType(typ: TypeField) {
    typ == Single(ObjectT) || (typ.Union? && ObjectT in typ.ts)
  }

  predicate IsObjectNode(s: Schema) {
    HasObjectType(s.typ) || s.properties.Properties?
  }

  /** The variant made from one member of an array of types. */
  function TypeVariant(t: TypeName, arrays: ArrayKeywords): Schema {
    EMPTY.(typ := Single(t), arrays := if t == ArrayT then arrays else NO_ARRAYS)
  }

  function TypeVariants(ts: seq<TypeName>, arrays: ArrayKeywords): (list: seq<Schema>)
    ensures |list| == |ts| && forall i :: 0 <= i < |ts| ==> list[i] == TypeVariant(ts[i], arrays)
  {
    seq(|ts|, i requires 0 <= i < |ts| => TypeVariant(ts[i], arrays))
  }

  function Within(keys: seq<string>, m: map<string, Schema>): (kept: seq<string>)
    ensures forall k :: k in kept <==> k in keys && k in m
  {
    if keys == [] then []
    else if keys[0] in m then [keys[0]] + Within(keys[1..], m)
    else Within(keys[1..], m)
  }

  /** A node whose children have been normalised already. */
  function Transformed(s: Schema): Schema {
    var kept := if s.properties.Properties? && s.required.Some? then Within(s.required.value, s.properties.m) else [];
    Schema(
      if s.typ.Single? then s.typ else NoType,
      if s.properties.Properties? then s.properties else if HasObjectType(s.typ) then Properties(map[]) else NoProperties,
      if kept != [] then Some(kept) else None,
      if IsObjectNode(s) then Allow(false) else NoAdditional,
      if s.typ == Single(ArrayT) then s.arrays else NO_ARRAYS,
      if s.typ.Union? then Variants(TypeVariants(s.typ.ts, s.arrays)) else s.anyOf,
      s.oneOf, s.allOf,
      if s.format.Some? && s.format.value in SUPPORTED_FORMATS then s.format else None,
      s.copied)
  }

  /** Copies the array keywords that the source defines. */
  method ApplyArrayProperties(target: Schema, source: ArrayKeywords) returns (result: Schema)
    requires target.arrays == NO_ARRAYS
    ensures result == target.(arrays := source)
  {
    result := target;
    if source.items != NoItems { result := result.(arrays := result.arrays.(items := source.items)); }
    if source.minItems != None { result := result.(arrays := result.arrays.(minItems := source.minItems)); }
    if source.maxItems != None { result := result.(arrays := result.arrays.(maxItems := source.maxItems)); }
    if source.uniqueItems != None { result := result.(arrays := result.arrays.(uniqueItems := source.uniqueItems)); }
  }

  /** The transform as the source performs it, filling in a result record. */
  method Transform(schema: Schema) returns (result: Schema)
    ensures result == Transformed(schema)
  {
    result := EMPTY.(anyOf := schema.anyOf, oneOf := schema.oneOf, allOf := schema.allOf, copied := schema.copied);
    var isObjectType := schema.typ == Single(ObjectT)
      || (schema.typ.Union? && ObjectT in schema.typ.ts) || schema.properties != NoProperties;

    if schema.typ.Union? {
      var list := [];
      for i := 0 to |schema.typ.ts|
        invariant list == TypeVariants(schema.typ.ts, schema.arrays)[..i]
      {
        var variant := EMPTY.(typ := Single(schema.typ.ts[i]));
        if schema.typ.ts[i] == ArrayT {
          variant := ApplyArrayProperties(variant, schema.arrays);
        }
        list := list + [variant];
      }
      assert list == TypeVariants(schema.typ.ts, schema.arrays);
      result := result.(anyOf := Variants(list));
    } else if schema.typ != NoType {
      result := result.(typ := schema.typ);
      if schema.typ == Single(ArrayT) {
        result := ApplyArrayProperties(result, schema.arrays);
      }
    }

    if schema.format.Some? && schema.format.value in SUPPORTED_FORMATS {
      result := result.(format := schema.format);
    }

    if schema.properties.Properties? {
      result := result.(properties := schema.properties);
      if schema.required.Some? {
        var filteredRequired := Within(schema.required.value, schema.properties.m);
        if |filteredRequired| > 0 {
          result := result.(required := Some(filteredRequired));
        }
      }
    } else if result.typ == Single(ObjectT) || (schema.typ.Union? && ObjectT in schema.typ.ts) {
      result := result.(properties := Properties(map[]));
    }

    if isObjectType {
      result := result.(additional := Allow(false));
    }
  }

  // ---------------------------------------------------------------- the recursive normaliser

  function Normalize(s: Schema): Schema
    decreases s, 1
  {
    Transformed(NormalizeChildren(s))
  }

  function NormalizeChildren(s: Schema): Schema
    decreases s, 0
  {
    s.(properties := match s.properties
         case NoProperties => NoProperties
         case Properties(m) => Properties(map k | k in m :: Normalize(m[k])),
       additional := match s.additional
         case AdditionalSchema(schema) => AdditionalSchema(Normalize(schema))
         case NoAdditional => NoAdditional
         case Allow(b) => Allow(b),
       arrays := s.arrays.(items := match s.arrays.items
         case NoItems => NoItems
         case ItemsAll(schema) => ItemsAll(Normalize(schema))
         case ItemsTuple(schemas) => ItemsTuple(NormalizeList(schemas))),
       anyOf := NormalizeVariants(s.anyOf), oneOf := NormalizeVariants(s.oneOf), allOf := NormalizeVariants(s.allOf))
  }

  function NormalizeVariants(variants: Variants): (r: Variants)
    ensures r.Variants? <==> variants.Variants?
    ensures r.Variants? ==> |r.list| == |variants.list|
    ensures r.Variants? ==> forall i :: 0 <= i < |r.list| ==> r.list[i] == Normalize(variants.list[i])
    decreases variants, 0
  {
    match variants
    case NoVariants => NoVariants
    case Variants(list) => Variants(NormalizeList(list))
  }

  function NormalizeList(list: seq<Schema>): (r: seq<Schema>)
    ensures |r| == |list|
    ensures forall i :: 0 <= i < |r| ==> r[i] == Normalize(list[i])
    decreases list, 0
  {
    seq(|list|, i requires 0 <= i < |list| => Normalize(list[i]))
  }

  // ---------------------------------------------------------------- normal forms

  /** What strict mode asks of one node. */
  predicate StrictNode(s: Schema) {
    && !s.typ.Union?
    && (s.format.Some? ==> s.format.value in SUPPORTED_FORMATS)
    && (s.required.Some? ==> s.required.value != [] && forall k :: k in s.required.value ==> Declares(s.properties, k))
    && (s.typ == Single(ObjectT) ==> s.properties.Properties?)
    && s.additional == (if s.properties.Properties? then Allow(false) else NoAdditional)
    && (s.typ != Single(ArrayT) ==> s.arrays == NO_ARRAYS)
  }

  /**
   * Strict at every node. With `bare`, a variant that is exactly a type "object" and
   * nothing else is let through: arrays of types leave such variants behind.
   */
  predicate Strict(s: Schema, bare: bool)
    decreases s, 1
  {
    StrictNode(s) && StrictChildren(s, bare)
  }

  predicate StrictChildren(s: Schema, bare: bool)
    decreases s, 0
  {
    StrictProperties(s.properties, bare) && StrictItems(s.arrays.items, bare) && StrictAny(s.anyOf, bare)
    && StrictVariants(s.oneOf, bare) && StrictVariants(s.allOf, bare)
  }

  predicate StrictProperties(properties: Properties, bare: bool)
    decreases properties, 0
  {
    properties.Properties? ==> forall k :: k in properties.m ==> Strict(properties.m[k], bare)
  }

  predicate StrictAny(variants: Variants, bare: bool)
    decreases variants, 0
  {
    variants.Variants? ==>
      forall i :: 0 <= i < |variants.list| ==> Strict(variants.list[i], bare) || (bare && variants.list[i] == BARE_OBJECT)
  }

  predicate StrictVariants(variants: Variants, bare: bool)
    decreases variants, 0
  {
    variants.Variants? ==> forall i :: 0 <= i < |variants.list| ==> Strict(variants.list[i], bare)
  }

  predicate StrictItems(items: Items, bare: bool)
    decreases items, 0
  {
    match items
    case NoItems => true
    case ItemsAll(schema) => Strict(schema, bare)
    case ItemsTuple(schemas) => forall i :: 0 <= i < |schemas| ==> Strict(schemas[i], bare)
  }

  const BARE_OBJECT := EMPTY.(typ := Single(ObjectT))

  /** No array of types that includes "object", at any node that normalisation keeps. */
  predicate Regular(s: Schema)
    decreases s, 1
  {
    !(s.typ.Union? && ObjectT in s.typ.ts) && RegularChildren(s)
  }

  predicate KeepsArrays(typ: TypeField) {
    typ == Single(ArrayT) || (typ.Union? && ArrayT in typ.ts)
  }

  predicate RegularChildren(s: Schema)
    decreases s, 0
  {
    RegularProperties(s.properties) && (KeepsArrays(s.typ) ==> RegularItems(s.arrays.items))
    && (!s.typ.Union? ==> RegularVariants(s.anyOf)) && RegularVariants(s.oneOf) && RegularVariants(s.allOf)
  }

  predicate RegularProperties(properties: Properties)
    decreases properties, 0
  {
    properties.Properties? ==> forall k :: k in properties.m ==> Regular(properties.m[k])
  }

  predicate RegularVariants(variants: Variants)
    decreases variants, 0
  {
    variants.Variants? ==> forall i :: 0 <= i < |variants.list| ==> Regular(variants.list[i])
  }

  predicate RegularItems(items: Items)
    decreases items, 0
  {
    match items
    case NoItems => true
    case ItemsAll(schema) => Regular(schema)
    case ItemsTuple(schemas) => forall i :: 0 <= i < |schemas| ==> Regular(schemas[i])
  }

  /** The normal forms are exactly the strict schemas. */
  lemma {:induction false} NormalFormsAreStrict(s: Schema)
    ensures Normalize(s) == s <==> Strict(s, false)
    decreases s, 1
  {
    FixedChildren(s);
    var c := NormalizeChildren(s);
    if Strict(s, false) {
      TransformedStrict(s);
    }
    if Normalize(s) == s {
      TransformedFixed(c, s);
    }
  }

  /** A strict node is left alone. */
  lemma TransformedStrict(s: Schema)
    requires StrictNode(s)
    ensures Transformed(s) == s
  {
    if s.required.Some? {
      assert s.required.value[0] in s.required.value;
      WithinAll(s.required.value, s.properties.m);
    }
  }

  lemma {:induction false} WithinAll(keys: seq<string>, m: map<string, Schema>)
    requires forall k :: k in keys ==> k in m
    ensures Within(keys, m) == keys
  {
    if keys != [] {
      assert keys[0] in keys;
      WithinAll(keys[1..], m);
    }
  }

  /** If transforming the normalised children gives the node back, it is strict and its children were normal. */
  lemma TransformedFixed(c: Schema, s: Schema)
    requires c == NormalizeChildren(s) && Transformed(c) == s
    ensures StrictNode(s) && c == s
  {
  }

  /** Children are left alone exactly when each of them is strict, on a node that keeps no additional schema. */
  lemma {:induction false} FixedChildren(s: Schema)
    ensures !s.additional.AdditionalSchema? ==> (NormalizeChildren(s) == s <==> StrictChildren(s, false))
    decreases s, 0
  {
    FixedProperties(s);
    FixedItems(s.arrays.items);
    FixedVariants(s.anyOf);
    FixedVariants(s.oneOf);
    FixedVariants(s.allOf);
  }

  lemma {:induction false} FixedProperties(s: Schema)
    ensures NormalizeChildren(s).properties == s.properties <==> StrictProperties(s.properties, false)
    decreases s.properties, 0
  {
    if s.properties.Properties? {
      var m := s.properties.m;
      forall k | k in m ensures Normalize(m[k]) == m[k] <==> Strict(m[k], false) { NormalFormsAreStrict(m[k]); }
      var n := NormalizeChildren(s).properties.m;
      assert n == m <==> forall k :: k in m ==> n[k] == m[k];
    }
  }

  lemma {:induction false} FixedItems(items: Items)
    ensures (items.ItemsAll? ==> (Normalize(items.schema) == items.schema <==> StrictItems(items, false)))
    ensures (items.ItemsTuple? ==> (NormalizeList(items.schemas) == items.schemas <==> StrictItems(items, false)))
    decreases items, 0
  {
    match items
    case NoItems =>
    case ItemsAll(schema) => NormalFormsAreStrict(schema);
    case ItemsTuple(schemas) => FixedList(schemas);
  }

  lemma {:induction false} FixedVariants(variants: Variants)
    ensures NormalizeVariants(variants) == variants <==> StrictVariants(variants, false)
    decreases variants, 0
  {
    if variants.Variants? { FixedList(variants.list); }
  }

  lemma {:induction false} FixedList(list: seq<Schema>)
    ensures NormalizeList(list) == list <==> forall i :: 0 <= i < |list| ==> Strict(list[i], false)
    decreases list, 0
  {
    forall i | 0 <= i < |list| ensures NormalizeList(list)[i] == list[i] <==> Strict(list[i], false) {
      NormalFormsAreStrict(list[i]);
    }
  }

  /**
   * Every output is strict, except that an array of types including "object" leaves a bare
   * variant; without such an array at a kept node it is strict throughout.
   */
  lemma {:induction false} OutputIsStrict(s: Schema)
    ensures Strict(Normalize(s), true)
    ensures Strict(Normalize(s), false) <==> Regular(s)
    decreases s, 1
  {
    var c, n := NormalizeChildren(s), Normalize(s);
    assert n == Transformed(c);
    TransformedIsStrictNode(c);
    PropertiesAreStrict(s);
    ItemsAreStrict(s.arrays.items, c.arrays.items);
    VariantsAreStrict(s.oneOf);
    VariantsAreStrict(s.allOf);
    assert n.oneOf == NormalizeVariants(s.oneOf) && n.allOf == NormalizeVariants(s.allOf);
    if s.typ.Union? {
      TypeVariantsAreStrict(s.typ.ts, c.arrays);
      assert StrictItems(n.arrays.items, false) && StrictItems(n.arrays.items, true);
    } else {
      VariantsAreStrict(s.anyOf);
      assert n.anyOf == NormalizeVariants(s.anyOf);
      assert n.arrays.items == if KeepsArrays(s.typ) then c.arrays.items else NoItems;
      assert StrictChildren(n, false) <==> RegularChildren(s);
    }
  }

  lemma {:induction false} PropertiesAreStrict(s: Schema)
    ensures var properties := Normalize(s).properties;
      StrictProperties(properties, true) && (StrictProperties(properties, false) <==> RegularProperties(s.properties))
    decreases s, 0
  {
    if s.properties.Properties? {
      SameKeys(s);
      forall k | k in s.properties.m
        ensures var n := Normalize(s.properties.m[k]); Strict(n, true) && (Strict(n, false) <==> Regular(s.properties.m[k]))
      {
        OutputIsStrict(s.properties.m[k]);
      }
    } else {
      NothingDeclared(s);
    }
  }

  lemma TransformedIsStrictNode(s: Schema)
    ensures StrictNode(Transformed(s))
  {
  }

  lemma {:induction false} ItemsAreStrict(items: Items, normalized: Items)
    requires normalized == match items
      case NoItems => NoItems
      case ItemsAll(schema) => ItemsAll(Normalize(schema))
      case ItemsTuple(schemas) => ItemsTuple(NormalizeList(schemas))
    ensures StrictItems(normalized, true) && (StrictItems(normalized, false) <==> RegularItems(items))
    decreases items, 0
  {
    match items
    case NoItems =>
    case ItemsAll(schema) => OutputIsStrict(schema);
    case ItemsTuple(schemas) => ListIsStrict(schemas);
  }

  lemma {:induction false} VariantsAreStrict(variants: Variants)
    ensures var n := NormalizeVariants(variants);
      && StrictVariants(n, true) && StrictAny(n, true) && (StrictAny(n, false) <==> RegularVariants(variants))
      && (StrictVariants(n, false) <==> RegularVariants(variants))
    decreases variants, 0
  {
    if variants.Variants? { ListIsStrict(variants.list); }
  }

  lemma {:induction false} ListIsStrict(list: seq<Schema>)
    ensures forall i :: 0 <= i < |list| ==> Strict(NormalizeList(list)[i], true)
    ensures forall i :: 0 <= i < |list| ==> (Strict(NormalizeList(list)[i], false) <==> Regular(list[i]))
    decreases list, 0
  {
    forall i | 0 <= i < |list|
      ensures Strict(NormalizeList(list)[i], true) && (Strict(NormalizeList(list)[i], false) <==> Regular(list[i]))
    {
      OutputIsStrict(list[i]);
    }
  }

  lemma TypeVariantsAreStrict(ts: seq<TypeName>, arrays: ArrayKeywords)
    requires StrictItems(arrays.items, true)
    ensures var variants := Variants(TypeVariants(ts, arrays));
      StrictAny(variants, true)
      && (StrictAny(variants, false) <==> ObjectT !in ts && (ArrayT in ts ==> StrictItems(arrays.items, false)))
  {
    forall i | 0 <= i < |ts|
      ensures Strict(TypeVariants(ts, arrays)[i], true) || TypeVariants(ts, arrays)[i] == BARE_OBJECT
      ensures Strict(TypeVariants(ts, arrays)[i], false) <==> ts[i] != ObjectT && (ts[i] == ArrayT ==> StrictItems(arrays.items, false))
    {
      TypeVariantStrict(ts[i], arrays);
    }
  }

  lemma TypeVariantStrict(t: TypeName, arrays: ArrayKeywords)
    requires StrictItems(arrays.items, true)
    ensures Strict(TypeVariant(t, arrays), true) || TypeVariant(t, arrays) == BARE_OBJECT
    ensures Strict(TypeVariant(t, arrays), false) <==> t != ObjectT && (t == ArrayT ==> StrictItems(arrays.items, false))
  {
    var variant := TypeVariant(t, arrays);
    ChildrenOfTypeVariant(t, arrays, true);
    ChildrenOfTypeVariant(t, arrays, false);
    assert StrictNode(variant) <==> t != ObjectT;
  }

  lemma ChildrenOfTypeVariant(t: TypeName, arrays: ArrayKeywords, bare: bool)
    ensures StrictChildren(TypeVariant(t, arrays), bare) <==> (t == ArrayT ==> StrictItems(arrays.items, bare))
  {
    var variant := TypeVariant(t, arrays);
    assert StrictItems(variant.arrays.items, bare) <==> (t == ArrayT ==> StrictItems(arrays.items, bare));
    assert StrictProperties(variant.properties, bare) && StrictAny(variant.anyOf, bare)
      && StrictVariants(variant.oneOf, bare) && StrictVariants(variant.allOf, bare);
  }

  /** Normalising again changes nothing exactly when no kept node has an array of types including "object". */
  lemma IdempotentExactlyOnRegular(s: Schema)
    ensures Normalize(Normalize(s)) == Normalize(s) <==> Regular(s)
  {
    OutputIsStrict(s);
    NormalFormsAreStrict(Normalize(s));
  }

  // ---------------------------------------------------------------- normalising only tightens

  predicate ArrayKeywordsAreTyped(s: Schema) {
    s.arrays == NO_ARRAYS || s.typ != NoType
  }

  predicate RequiredIsDeclared(s: Schema) {
    s.required.Some? ==> forall i :: 0 <= i < |s.required.value| ==> Declares(s.properties, s.required.value[i])
  }

  /** A restriction on further members stands beside a type or properties. */
  predicate AdditionalIsTyped(s: Schema) {
    s.additional == NoAdditional || s.additional == Allow(true) || s.typ != NoType || s.properties.Properties?
  }

  predicate SoundNode(s: Schema) {
    && ArrayKeywordsAreTyped(s) && RequiredIsDeclared(s) && AdditionalIsTyped(s)
    && (s.typ.Union? ==> s.anyOf.NoVariants?)
  }

  /** An object node that already forbids further members. */
  predicate ClosedNode(s: Schema) {
    IsObjectNode(s) ==> s.additional == Allow(false)
  }

  /** The fragment on which normalising keeps its promise, at every node it keeps. `exact` asks for closed nodes. */
  predicate Sound(s: Schema, exact: bool)
    decreases s, 1
  {
    SoundNode(s) && (if exact then ClosedNode(s) else s.oneOf.NoVariants?) && SoundChildren(s, exact)
  }

  predicate SoundChildren(s: Schema, exact: bool)
    decreases s, 0
  {
    && (s.properties.Properties? ==> forall k :: k in s.properties.m ==> Sound(s.properties.m[k], exact))
    && (KeepsArrays(s.typ) ==> SoundItems(s.arrays.items, exact))
    && (s.anyOf.Variants? ==> forall i :: 0 <= i < |s.anyOf.list| ==> Sound(s.anyOf.list[i], exact))
    && (s.oneOf.Variants? ==> forall i :: 0 <= i < |s.oneOf.list| ==> Sound(s.oneOf.list[i], exact))
    && (s.allOf.Variants? ==> forall i :: 0 <= i < |s.allOf.list| ==> Sound(s.allOf.list[i], exact))
  }

  predicate SoundItems(items: Items, exact: bool)
    decreases items, 0
  {
    match items
    case NoItems => true
    case ItemsAll(schema) => Sound(schema, exact)
    case ItemsTuple(schemas) => forall i :: 0 <= i < |schemas| ==> Sound(schemas[i], exact)
  }

  /** Whatever the normalised schema accepts, the original accepts. */
  lemma NormalizingOnlyTightens(s: Schema, v: Json)
    requires Sound(s, false) && Accepts(Normalize(s), v)
    ensures Accepts(s, v)
  {
    Compared(s, v, false);
  }

  /** On schemas that close their objects themselves the two accept the same values, "oneOf" included. */
  lemma NormalizingIsExactOnClosed(s: Schema, v: Json)
    requires Sound(s, true)
    ensures Accepts(Normalize(s), v) <==> Accepts(s, v)
  {
    Compared(s, v, true);
  }

  /** Whether the element at `i` is constrained, and by which schema. */
  predicate AppliesTo(items: Items, i: nat) {
    items.ItemsAll? || (items.ItemsTuple? && i < |items.schemas|)
  }

  function ItemSchema(items: Items, i: nat): (schema: Schema)
    requires AppliesTo(items, i)
    ensures schema < items
  {
    match items
    case ItemsAll(schema) => schema
    case ItemsTuple(schemas) => schemas[i]
  }

  lemma SoundItem(items: Items, i: nat, exact: bool)
    requires SoundItems(items, exact) && AppliesTo(items, i)
    ensures Sound(ItemSchema(items, i), exact)
  {
  }

  predicate Related(s: Schema, v: Json, exact: bool) {
    (Accepts(Normalize(s), v) ==> Accepts(s, v)) && (exact && Accepts(s, v) ==> Accepts(Normalize(s), v))
  }

  lemma {:induction false} Compared(s: Schema, v: Json, exact: bool)
    requires Sound(s, exact)
    ensures Related(s, v, exact)
    decreases s
  {
    if v.JObject? && s.properties.Properties? {
      forall k | k in s.properties.m && k in v.members ensures Related(s.properties.m[k], v.members[k], exact) {
        Compared(s.properties.m[k], v.members[k], exact);
      }
    }
    if v.JArray? && KeepsArrays(s.typ) {
      forall i | 0 <= i < |v.items| && AppliesTo(s.arrays.items, i)
        ensures Related(ItemSchema(s.arrays.items, i), v.items[i], exact)
      {
        SoundItem(s.arrays.items, i, exact);
        Compared(ItemSchema(s.arrays.items, i), v.items[i], exact);
      }
    }
    ComparedList(s.anyOf, v, exact);
    ComparedList(s.oneOf, v, exact);
    ComparedList(s.allOf, v, exact);
    ComparedTyping(s, v, exact);
    ComparedMembers(s, v, exact);
    ComparedOneOf(s, v, exact);
    ComparedAllOf(s, v, exact);
    AcceptsByParts(s, v);
    AcceptsByParts(Normalize(s), v);
    assert Normalize(s) == Transformed(NormalizeChildren(s));
  }

  lemma AcceptsByParts(s: Schema, v: Json)
    ensures Accepts(s, v) <==>
      AcceptsTyping(s, v) && AcceptsCopied(s.copied, v) && AcceptsObject(s, v) && AcceptsOneOf(s, v) && AcceptsAllOf(s, v)
  {
  }

  /** Type, array keywords and "anyOf" together, since an array of types becomes an "anyOf". */
  predicate AcceptsTyping(s: Schema, v: Json) {
    AcceptsType(s.typ, v) && AcceptsLengths(s.arrays, v) && AcceptsItems(s, v) && AcceptsAnyOf(s, v)
  }

  lemma ComparedTyping(s: Schema, v: Json, exact: bool)
    requires SoundNode(s)
    requires v.JArray? && KeepsArrays(s.typ) ==>
      forall i :: 0 <= i < |v.items| && AppliesTo(s.arrays.items, i) ==> Related(ItemSchema(s.arrays.items, i), v.items[i], exact)
    requires s.anyOf.Variants? ==> forall i :: 0 <= i < |s.anyOf.list| ==> Related(s.anyOf.list[i], v, exact)
    ensures AcceptsTyping(Normalize(s), v) ==> AcceptsTyping(s, v)
    ensures exact && AcceptsTyping(s, v) ==> AcceptsTyping(Normalize(s), v)
  {
    if KeepsArrays(s.typ) { ComparedItems(s, v, exact); }
    if s.typ.Union? {
      ComparedUnion(s, v, exact);
    } else {
      ComparedAnyOf(s, v, exact);
      ComparedSingle(s, v, exact);
    }
  }

  /** The array keywords and their items, before and after. */
  predicate SameArrays(s: Schema, v: Json, exact: bool) {
    var c := NormalizeChildren(s);
    && (AcceptsItems(c, v) ==> AcceptsItems(s, v)) && (exact && AcceptsItems(s, v) ==> AcceptsItems(c, v))
    && (AcceptsLengths(c.arrays, v) <==> AcceptsLengths(s.arrays, v))
  }

  lemma ComparedSingle(s: Schema, v: Json, exact: bool)
    requires SoundNode(s) && !s.typ.Union? && (KeepsArrays(s.typ) ==> SameArrays(s, v, exact))
    requires AcceptsAnyOf(Normalize(s), v) ==> AcceptsAnyOf(s, v)
    requires exact && AcceptsAnyOf(s, v) ==> AcceptsAnyOf(Normalize(s), v)
    ensures AcceptsTyping(Normalize(s), v) ==> AcceptsTyping(s, v)
    ensures exact && AcceptsTyping(s, v) ==> AcceptsTyping(Normalize(s), v)
  {
    var c, n := NormalizeChildren(s), Normalize(s);
    assert n == Transformed(c) && n.typ == s.typ;
    if KeepsArrays(s.typ) {
      assert n.arrays == c.arrays && (AcceptsItems(n, v) <==> AcceptsItems(c, v));
    } else if v.JArray? {
      assert n.arrays == NO_ARRAYS;
    }
  }

  lemma ComparedUnion(s: Schema, v: Json, exact: bool)
    requires SoundNode(s) && s.typ.Union? && (KeepsArrays(s.typ) ==> SameArrays(s, v, exact))
    ensures AcceptsTyping(Normalize(s), v) ==> AcceptsTyping(s, v)
    ensures exact && AcceptsTyping(s, v) ==> AcceptsTyping(Normalize(s), v)
  {
    var c, n := NormalizeChildren(s), Normalize(s);
    assert n.anyOf == Variants(TypeVariants(s.typ.ts, c.arrays));
    forall i | 0 <= i < |s.typ.ts|
      ensures Accepts(n.anyOf.list[i], v) <==>
        HasType(v, s.typ.ts[i]) && (v.JArray? ==> AcceptsLengths(c.arrays, v) && AcceptsItems(c, v))
    {
      TypeVariantAccepts(s.typ.ts[i], c, v);
    }
    assert v.JArray? ==> forall i :: 0 <= i < |s.typ.ts| && HasType(v, s.typ.ts[i]) ==> s.typ.ts[i] == ArrayT;
  }

  lemma TypeVariantAccepts(t: TypeName, c: Schema, v: Json)
    ensures Accepts(TypeVariant(t, c.arrays), v) <==>
      HasType(v, t) && (v.JArray? ==> AcceptsLengths(c.arrays, v) && AcceptsItems(c, v))
  {
    var variant := TypeVariant(t, c.arrays);
    assert AcceptsAnyOf(variant, v) && AcceptsOneOf(variant, v) && AcceptsAllOf(variant, v) && AcceptsMembers(variant, v);
    assert t == ArrayT ==> (AcceptsItems(variant, v) <==> AcceptsItems(c, v));
  }

  lemma ComparedItems(s: Schema, v: Json, exact: bool)
    requires v.JArray? ==>
      forall i :: 0 <= i < |v.items| && AppliesTo(s.arrays.items, i) ==> Related(ItemSchema(s.arrays.items, i), v.items[i], exact)
    ensures AcceptsItems(NormalizeChildren(s), v) ==> AcceptsItems(s, v)
    ensures exact && AcceptsItems(s, v) ==> AcceptsItems(NormalizeChildren(s), v)
    ensures AcceptsLengths(NormalizeChildren(s).arrays, v) <==> AcceptsLengths(s.arrays, v)
  {
    if v.JArray? {
      var c := NormalizeChildren(s);
      forall i | 0 <= i < |v.items| && AppliesTo(s.arrays.items, i)
        ensures AppliesTo(c.arrays.items, i) && ItemSchema(c.arrays.items, i) == Normalize(ItemSchema(s.arrays.items, i))
      {
      }
      AcceptsItemsByIndex(s, v);
      AcceptsItemsByIndex(c, v);
    }
  }

  lemma AcceptsItemsByIndex(s: Schema, v: Json)
    requires v.JArray?
    ensures AcceptsItems(s, v) <==>
      forall i :: 0 <= i < |v.items| && AppliesTo(s.arrays.items, i) ==> Accepts(ItemSchema(s.arrays.items, i), v.items[i])
  {
  }

  lemma ComparedAnyOf(s: Schema, v: Json, exact: bool)
    requires !s.typ.Union?
    requires s.anyOf.Variants? ==> forall i :: 0 <= i < |s.anyOf.list| ==> Related(s.anyOf.list[i], v, exact)
    ensures AcceptsAnyOf(Normalize(s), v) ==> AcceptsAnyOf(s, v)
    ensures exact && AcceptsAnyOf(s, v) ==> AcceptsAnyOf(Normalize(s), v)
  {
    var c, n := NormalizeChildren(s), Normalize(s);
    assert n.anyOf == c.anyOf == NormalizeVariants(s.anyOf);
    if n.anyOf.Variants? && AcceptsAnyOf(n, v) {
      var i :| 0 <= i < |n.anyOf.list| && Accepts(n.anyOf.list[i], v);
      assert Related(s.anyOf.list[i], v, exact);
    }
    if exact && s.anyOf.Variants? && AcceptsAnyOf(s, v) {
      var i :| 0 <= i < |s.anyOf.list| && Accepts(s.anyOf.list[i], v);
      assert Accepts(n.anyOf.list[i], v);
    }
  }

  predicate AcceptsObject(s: Schema, v: Json) {
    AcceptsMembers(s, v) && AcceptsRequired(s.required, v)
  }

  lemma ComparedMembers(s: Schema, v: Json, exact: bool)
    requires SoundNode(s) && (exact ==> ClosedNode(s))
    requires v.JObject? && s.properties.Properties? ==>
      forall k :: k in s.properties.m && k in v.members ==> Related(s.properties.m[k], v.members[k], exact)
    ensures AcceptsType(s.typ, v) && AcceptsObject(Normalize(s), v) ==> AcceptsObject(s, v)
    ensures exact && AcceptsObject(s, v) ==> AcceptsObject(Normalize(s), v)
  {
    if v.JObject? {
      var c := NormalizeChildren(s);
      assert Normalize(s) == Transformed(c);
      ComparedRequired(s, v);
      if s.properties.Properties? { SameKeys(s); } else { NothingDeclared(s); }
    }
  }

  /** Required keys that are declared stay required. */
  lemma ComparedRequired(s: Schema, v: Json)
    requires RequiredIsDeclared(s)
    ensures AcceptsRequired(Normalize(s).required, v) <==> AcceptsRequired(s.required, v)
  {
    var c := NormalizeChildren(s);
    assert Normalize(s) == Transformed(c);
    if s.properties.Properties? && s.required.Some? {
      SameKeys(s);
      forall k | k in s.required.value ensures k in c.properties.m {
        var i :| 0 <= i < |s.required.value| && s.required.value[i] == k;
        assert Declares(s.properties, s.required.value[i]);
      }
      WithinAll(s.required.value, c.properties.m);
    }
  }

  lemma SameKeys(s: Schema)
    requires s.properties.Properties?
    ensures Normalize(s).properties.Properties? && Normalize(s).properties == NormalizeChildren(s).properties
    ensures forall k :: k in Normalize(s).properties.m <==> k in s.properties.m
    ensures forall k :: k in s.properties.m ==> Normalize(s).properties.m[k] == Normalize(s.properties.m[k])
  {
  }

  lemma NothingDeclared(s: Schema)
    requires s.properties.NoProperties?
    ensures Normalize(s).required == None
    ensures Normalize(s).properties == if HasObjectType(s.typ) then Properties(map[]) else NoProperties
  {
    var c := NormalizeChildren(s);
    assert Normalize(s) == Transformed(c);
  }

  lemma ComparedOneOf(s: Schema, v: Json, exact: bool)
    requires !exact ==> s.oneOf.NoVariants?
    requires s.oneOf.Variants? ==> forall i :: 0 <= i < |s.oneOf.list| ==> Related(s.oneOf.list[i], v, exact)
    ensures AcceptsOneOf(Normalize(s), v) <==> AcceptsOneOf(s, v)
  {
    var c, n := NormalizeChildren(s), Normalize(s);
    assert n.oneOf == c.oneOf == NormalizeVariants(s.oneOf);
    if s.oneOf.Variants? {
      forall i | 0 <= i < |s.oneOf.list| ensures Accepts(n.oneOf.list[i], v) <==> Accepts(s.oneOf.list[i], v) {
        assert Related(s.oneOf.list[i], v, exact);
      }
      forall i ensures AcceptsOnly(n.oneOf.list, i, v) <==> AcceptsOnly(s.oneOf.list, i, v) {
        SameOnly(n.oneOf.list, s.oneOf.list, i, v);
      }
    }
  }

  lemma SameOnly(a: seq<Schema>, b: seq<Schema>, i: int, v: Json)
    requires |a| == |b| && forall k :: 0 <= k < |a| ==> (Accepts(a[k], v) <==> Accepts(b[k], v))
    ensures AcceptsOnly(a, i, v) <==> AcceptsOnly(b, i, v)
  {
  }

  lemma ComparedAllOf(s: Schema, v: Json, exact: bool)
    requires s.allOf.Variants? ==> forall i :: 0 <= i < |s.allOf.list| ==> Related(s.allOf.list[i], v, exact)
    ensures AcceptsAllOf(Normalize(s), v) ==> AcceptsAllOf(s, v)
    ensures exact && AcceptsAllOf(s, v) ==> AcceptsAllOf(Normalize(s), v)
  {
    var c, n := NormalizeChildren(s), Normalize(s);
    assert n.allOf == c.allOf == NormalizeVariants(s.allOf);
    if s.allOf.Variants? {
      forall i | 0 <= i < |s.allOf.list|
        ensures (Accepts(n.allOf.list[i], v) ==> Accepts(s.allOf.list[i], v))
                && (exact && Accepts(s.allOf.list[i], v) ==> Accepts(n.allOf.list[i], v))
      {
        assert Related(s.allOf.list[i], v, exact);
      }
    }
  }

  lemma {:induction false} ComparedList(variants: Variants, v: Json, exact: bool)
    requires variants.Variants? ==> forall i :: 0 <= i < |variants.list| ==> Sound(variants.list[i], exact)
    ensures variants.Variants? ==> forall i :: 0 <= i < |variants.list| ==> Related(variants.list[i], v, exact)
    decreases variants
  {
    if variants.Variants? {
      forall i | 0 <= i < |variants.list| ensures Related(variants.list[i], v, exact) {
        Compared(variants.list[i], v, exact);
      }
    }
  }

  // ---------------------------------------------------------------- the conditions are needed

  ghost predicate OnlyTightens(s: Schema) {
    forall v :: Accepts(Normalize(s), v) ==> Accepts(s, v)
  }

  /**
   * On an object node that is sound otherwise, and whose normal form some object meets,
   * normalising tightens exactly when every required key is declared.
   */
  lemma TightensExactlyWhenRequiredIsDeclared(s: Schema, w: Json)
    requires IsObjectNode(s) && ArrayKeywordsAreTyped(s) && s.oneOf.NoVariants? && (s.typ.Union? ==> s.anyOf.NoVariants?)
    requires SoundChildren(s, false)
    requires w.JObject? && Accepts(Normalize(s), w)
    ensures OnlyTightens(s) <==> RequiredIsDeclared(s)
  {
    if RequiredIsDeclared(s) {
      forall v | Accepts(Normalize(s), v) ensures Accepts(s, v) { NormalizingOnlyTightens(s, v); }
    }
    if OnlyTightens(s) && s.required.Some? {
      assert Accepts(s, w);
      assert Normalize(s) == Transformed(NormalizeChildren(s));
      if s.properties.Properties? { SameKeys(s); } else { NothingDeclared(s); }
      forall i | 0 <= i < |s.required.value| ensures Declares(s.properties, s.required.value[i]) {
        assert s.required.value[i] in w.members;
      }
    }
  }

  // ---- keywords that are lost with the type they need

  /** A schema without a type normalises as if it had no array keywords. */
  lemma ArrayKeywordsAreDropped(s: Schema)
    requires s.typ == NoType
    ensures Normalize(s) == Normalize(s.(arrays := NO_ARRAYS))
  {
    var c, d := NormalizeChildren(s), NormalizeChildren(s.(arrays := NO_ARRAYS));
    assert d == c.(arrays := NO_ARRAYS);
  }

  lemma AcceptsWithoutArrays(s: Schema, v: Json)
    ensures Accepts(s, v) <==> Accepts(s.(arrays := NO_ARRAYS), v) && AcceptsLengths(s.arrays, v) && AcceptsItems(s, v)
  {
    var t := s.(arrays := NO_ARRAYS);
    assert AcceptsMembers(t, v) <==> AcceptsMembers(s, v);
    assert AcceptsAnyOf(t, v) <==> AcceptsAnyOf(s, v);
    assert AcceptsOneOf(t, v) <==> AcceptsOneOf(s, v);
    assert AcceptsAllOf(t, v) <==> AcceptsAllOf(s, v);
    assert AcceptsItems(t, v) && AcceptsLengths(t.arrays, v);
  }

  /** Without a type, normalising tightens exactly when every array that the normal form accepts meets the lost keywords. */
  lemma TightensExactlyWhenArraysMeetKeywords(s: Schema)
    requires s.typ == NoType && RequiredIsDeclared(s) && AdditionalIsTyped(s) && s.oneOf.NoVariants? && SoundChildren(s, false)
    ensures OnlyTightens(s) <==>
      forall v: Json :: v.JArray? && Accepts(Normalize(s), v) ==> AcceptsLengths(s.arrays, v) && AcceptsItems(s, v)
  {
    var t := s.(arrays := NO_ARRAYS);
    ArrayKeywordsAreDropped(s);
    forall v | Accepts(Normalize(s), v)
      ensures Accepts(s, v) <==> AcceptsLengths(s.arrays, v) && AcceptsItems(s, v)
    {
      NormalizingOnlyTightens(t, v);
      AcceptsWithoutArrays(s, v);
    }
  }

  predicate Unrestricted(s: Schema) {
    s.copied.enumeration == None && s.copied.constant == None && s.anyOf.NoVariants? && s.oneOf.NoVariants? && s.allOf.NoVariants?
  }

  ghost predicate AcceptsAll(s: Schema) {
    forall v :: Accepts(s, v)
  }

  /** Keywords that every array meets. */
  ghost predicate SayNothing(a: ArrayKeywords) {
    && a.minItems in {None, Some(0)} && a.maxItems == None && a.uniqueItems != Some(true)
    && match a.items
       case NoItems => true
       case ItemsAll(schema) => AcceptsAll(schema)
       case ItemsTuple(schemas) => forall i :: 0 <= i < |schemas| ==> AcceptsAll(schemas[i])
  }

  /**
   * For a schema without type, enumeration, constant and variants that is: when the array
   * keywords say nothing at all.
   */
  lemma TightensExactlyWhenArrayKeywordsSayNothing(s: Schema)
    requires s.typ == NoType && Unrestricted(s) && RequiredIsDeclared(s) && AdditionalIsTyped(s) && SoundChildren(s, false)
    ensures OnlyTightens(s) <==> SayNothing(s.arrays)
  {
    TightensExactlyWhenArraysMeetKeywords(s);
    forall v: Json | v.JArray? ensures Accepts(Normalize(s), v) {
      ArrayIsAccepted(s, v);
    }
    if !SayNothing(s.arrays) {
      var v := SomeArrayFails(s);
      assert !(AcceptsLengths(s.arrays, v) && AcceptsItems(s, v));
    }
  }

  lemma ArrayIsAccepted(s: Schema, v: Json)
    requires s.typ == NoType && Unrestricted(s) && v.JArray?
    ensures Accepts(Normalize(s), v)
  {
    var n := Normalize(s);
    assert n == Transformed(NormalizeChildren(s));
    assert AcceptsMembers(n, v) && AcceptsItems(n, v) && AcceptsAnyOf(n, v) && AcceptsOneOf(n, v) && AcceptsAllOf(n, v);
  }

  function Nulls(n: nat): (items: seq<Json>)
    ensures |items| == n && forall i :: 0 <= i < n ==> items[i] == JNull
  {
    seq(n, _ => JNull)
  }

  lemma SomeArrayFails(s: Schema) returns (v: Json)
    requires !SayNothing(s.arrays)
    ensures v.JArray? && !(AcceptsLengths(s.arrays, v) && AcceptsItems(s, v))
  {
    var a := s.arrays;
    if a.minItems !in {None, Some(0)} {
      v := JArray([]);
    } else if a.maxItems.Some? {
      v := JArray(Nulls(a.maxItems.value + 1));
    } else if a.uniqueItems == Some(true) {
      v := JArray(Nulls(2));
      assert v.items[0] == v.items[1];
    } else if a.items.ItemsAll? {
      var w :| !Accepts(a.items.schema, w);
      v := JArray([w]);
      assert v.items[0] == w;
    } else {
      var i :| 0 <= i < |a.items.schemas| && !AcceptsAll(a.items.schemas[i]);
      var w :| !Accepts(a.items.schemas[i], w);
      v := JArray(Nulls(i) + [w]);
      assert v.items[i] == w;
    }
  }

  /** For instance, a bare lower bound on the length of an array. */
  lemma UntypedArrayKeywordsLoosen(n: nat)
    requires n > 0
    ensures !OnlyTightens(EMPTY.(arrays := NO_ARRAYS.(minItems := Some(n))))
  {
    TightensExactlyWhenArrayKeywordsSayNothing(EMPTY.(arrays := NO_ARRAYS.(minItems := Some(n))));
  }

  /** A schema without type and properties normalises as if it said nothing of further members. */
  lemma AdditionalIsDropped(s: Schema)
    requires s.typ == NoType && s.properties.NoProperties?
    ensures Normalize(s) == Normalize(s.(additional := NoAdditional))
  {
    var c, d := NormalizeChildren(s), NormalizeChildren(s.(additional := NoAdditional));
    assert d == c.(additional := NoAdditional);
  }

  lemma AcceptsWithoutAdditional(s: Schema, v: Json)
    requires s.properties.NoProperties?
    ensures Accepts(s, v) <==> Accepts(s.(additional := NoAdditional), v) && AcceptsMembers(s, v)
  {
    var t := s.(additional := NoAdditional);
    assert AcceptsMembers(t, v);
    assert AcceptsItems(t, v) <==> AcceptsItems(s, v);
    assert AcceptsAnyOf(t, v) <==> AcceptsAnyOf(s, v);
    assert AcceptsOneOf(t, v) <==> AcceptsOneOf(s, v);
    assert AcceptsAllOf(t, v) <==> AcceptsAllOf(s, v);
  }

  /**
   * Without type and properties, normalising tightens exactly when every object that the
   * normal form accepts meets what is said of further members.
   */
  lemma TightensExactlyWhenMembersMeetAdditional(s: Schema)
    requires s.typ == NoType && s.properties.NoProperties? && s.arrays == NO_ARRAYS && RequiredIsDeclared(s)
    requires s.oneOf.NoVariants? && SoundChildren(s, false)
    ensures OnlyTightens(s) <==> forall v: Json :: v.JObject? && Accepts(Normalize(s), v) ==> AcceptsMembers(s, v)
  {
    var t := s.(additional := NoAdditional);
    AdditionalIsDropped(s);
    forall v | Accepts(Normalize(s), v) ensures Accepts(s, v) <==> AcceptsMembers(s, v) {
      NormalizingOnlyTightens(t, v);
      AcceptsWithoutAdditional(s, v);
    }
  }

  ghost predicate AdditionalSaysNothing(additional: Additional) {
    match additional
    case NoAdditional => true
    case Allow(b) => b
    case AdditionalSchema(schema) => AcceptsAll(schema)
  }

  /** Without enumeration, constant and variants that is: when any further member is allowed. */
  lemma TightensExactlyWhenAdditionalSaysNothing(s: Schema)
    requires s.typ == NoType && s.properties.NoProperties? && s.arrays == NO_ARRAYS && RequiredIsDeclared(s) && Unrestricted(s)
    requires SoundChildren(s, false)
    ensures OnlyTightens(s) <==> AdditionalSaysNothing(s.additional)
  {
    TightensExactlyWhenMembersMeetAdditional(s);
    forall v: Json | v.JObject? ensures Accepts(Normalize(s), v) {
      ObjectIsAccepted(s, v);
    }
    if s.additional == Allow(false) {
      assert "" in JObject(map["" := JNull]).members;
      assert !AcceptsMembers(s, JObject(map["" := JNull]));
    }
    if s.additional.AdditionalSchema? && !AcceptsAll(s.additional.schema) {
      var w :| !Accepts(s.additional.schema, w);
      assert JObject(map["" := w]).members[""] == w;
      assert !AcceptsMembers(s, JObject(map["" := w]));
    }
  }

  lemma ObjectIsAccepted(s: Schema, v: Json)
    requires s.typ == NoType && s.properties.NoProperties? && Unrestricted(s) && v.JObject?
    ensures Accepts(Normalize(s), v)
  {
    var n := Normalize(s);
    assert n == Transformed(NormalizeChildren(s));
    assert AcceptsMembers(n, v) && AcceptsItems(n, v) && AcceptsAnyOf(n, v) && AcceptsOneOf(n, v) && AcceptsAllOf(n, v);
  }

  // ---- an "anyOf" that is overwritten

  lemma AnyOfIsOverwritten(s: Schema)
    requires s.typ.Union?
    ensures Normalize(s) == Normalize(s.(anyOf := NoVariants))
  {
    var c, d := NormalizeChildren(s), NormalizeChildren(s.(anyOf := NoVariants));
    assert d == c.(anyOf := NoVariants);
  }

  lemma AcceptsWithoutAnyOf(s: Schema, v: Json)
    ensures Accepts(s, v) <==> Accepts(s.(anyOf := NoVariants), v) && AcceptsAnyOf(s, v)
  {
    var t := s.(anyOf := NoVariants);
    assert AcceptsMembers(t, v) <==> AcceptsMembers(s, v);
    assert AcceptsItems(t, v) <==> AcceptsItems(s, v);
    assert AcceptsOneOf(t, v) <==> AcceptsOneOf(s, v);
    assert AcceptsAllOf(t, v) <==> AcceptsAllOf(s, v);
    assert AcceptsAnyOf(t, v);
  }

  /**
   * With an array of types, normalising tightens exactly when every value that the normal
   * form accepts meets the overwritten "anyOf".
   */
  lemma TightensExactlyWhenAnyOfIsMet(s: Schema)
    requires s.typ.Union? && RequiredIsDeclared(s) && s.oneOf.NoVariants? && SoundChildren(s.(anyOf := NoVariants), false)
    ensures OnlyTightens(s) <==> forall v :: Accepts(Normalize(s), v) ==> AcceptsAnyOf(s, v)
  {
    var t := s.(anyOf := NoVariants);
    AnyOfIsOverwritten(s);
    assert Sound(t, false);
    if OnlyTightens(s) {
      forall v | Accepts(Normalize(s), v) ensures AcceptsAnyOf(s, v) {
        assert Accepts(s, v);
      }
    } else {
      var v :| Accepts(Normalize(s), v) && !Accepts(s, v);
      NormalizingOnlyTightens(t, v);
      AcceptsWithoutAnyOf(s, v);
      assert Accepts(Normalize(s), v) && !AcceptsAnyOf(s, v);
    }
  }

  /**
   * When types and variants are all there is: exactly when every value of one of the types
   * meets a variant. Of the objects only the empty one counts, since further members are forbidden.
   */
  lemma TypesBesideAnyOfTightenExactlyWhen(ts: seq<TypeName>, list: seq<Schema>)
    ensures var s := EMPTY.(typ := Union(ts), anyOf := Variants(list));
      OnlyTightens(s) <==>
      forall v: Json :: AcceptsType(s.typ, v) && (v.JObject? ==> v.members == map[]) ==> AcceptsAnyOf(s, v)
  {
    var s := EMPTY.(typ := Union(ts), anyOf := Variants(list));
    TightensExactlyWhenAnyOfIsMet(s);
    forall v: Json ensures Accepts(Normalize(s), v) <==> AcceptsType(s.typ, v) && (v.JObject? ==> v.members == map[]) {
      TypesAccept(s, v);
    }
  }

  lemma TypesAccept(s: Schema, v: Json)
    requires s == EMPTY.(typ := s.typ, anyOf := s.anyOf) && s.typ.Union?
    ensures Accepts(Normalize(s), v) <==> AcceptsType(s.typ, v) && (v.JObject? ==> v.members == map[])
  {
    var c, n := NormalizeChildren(s), Normalize(s);
    assert n == Transformed(c) && n.anyOf == Variants(TypeVariants(s.typ.ts, c.arrays));
    forall i | 0 <= i < |s.typ.ts| ensures Accepts(n.anyOf.list[i], v) <==> HasType(v, s.typ.ts[i]) {
      TypeVariantAccepts(s.typ.ts[i], c, v);
    }
    assert AcceptsAnyOf(n, v) <==> AcceptsType(s.typ, v);
    assert AcceptsItems(n, v) && AcceptsOneOf(n, v) && AcceptsAllOf(n, v);
    if v.JObject? && AcceptsType(s.typ, v) {
      assert ObjectT in s.typ.ts;
      assert n.properties == Properties(map[]) && n.additional == Allow(false);
      assert AcceptsMembers(n, v) <==> forall k :: k in v.members ==> false;
      assert v.members == map[] <==> forall k :: k in v.members ==> false;
    }
  }

  /** For instance, one variant beside one type. */
  lemma AnyOfBesideTypesLoosens(t: TypeName, other: Schema, v: Json)
    requires HasType(v, t) && !v.JObject? && !Accepts(other, v)
    ensures !OnlyTightens(EMPTY.(typ := Union([t]), anyOf := Variants([other])))
  {
    var s := EMPTY.(typ := Union([t]), anyOf := Variants([other]));
    TypesBesideAnyOfTightenExactlyWhen([t], [other]);
    assert HasType(v, s.typ.ts[0]) && !AcceptsAnyOf(s, v);
  }

  // ---- a "oneOf" whose variants are tightened

  /** No two of the variants accept the value. */
  predicate AtMostOne(list: seq<Schema>, v: Json) {
    forall i, j :: 0 <= i < j < |list| ==> !(Accepts(list[i], v) && Accepts(list[j], v))
  }

  lemma AcceptsWithoutOneOf(s: Schema, v: Json)
    ensures Accepts(s, v) <==> Accepts(s.(oneOf := NoVariants), v) && AcceptsOneOf(s, v)
  {
    var t := s.(oneOf := NoVariants);
    assert AcceptsMembers(t, v) <==> AcceptsMembers(s, v);
    assert AcceptsItems(t, v) <==> AcceptsItems(s, v);
    assert AcceptsAnyOf(t, v) <==> AcceptsAnyOf(s, v);
    assert AcceptsAllOf(t, v) <==> AcceptsAllOf(s, v);
    assert AcceptsOneOf(t, v);
  }

  lemma NormalOneOfIsApart(s: Schema)
    ensures Normalize(s).(oneOf := NoVariants) == Normalize(s.(oneOf := NoVariants))
    ensures Normalize(s).oneOf == NormalizeVariants(s.oneOf)
  {
    var c, d := NormalizeChildren(s), NormalizeChildren(s.(oneOf := NoVariants));
    assert d == c.(oneOf := NoVariants);
  }

  /** The tightened variant that alone accepts accepted before, so only a second one can be in the way. */
  lemma OneOfIsKeptExactlyWhen(s: Schema, v: Json, i: nat)
    requires s.oneOf.Variants? && i < |s.oneOf.list| && Accepts(s.oneOf.list[i], v)
    ensures AcceptsOneOf(s, v) <==> AtMostOne(s.oneOf.list, v)
  {
    var list := s.oneOf.list;
    if AtMostOne(list, v) {
      OthersReject(list, i, v);
      assert AcceptsOnly(list, i, v);
    }
    if AcceptsOneOf(s, v) {
      var k := TheOneThatAccepts(s, v);
      forall p, q | 0 <= p < q < |list| ensures !(Accepts(list[p], v) && Accepts(list[q], v)) {
        if p != k { assert !Accepts(list[p], v); } else { assert !Accepts(list[q], v); }
      }
    }
  }

  lemma OthersReject(list: seq<Schema>, i: nat, v: Json)
    requires i < |list| && Accepts(list[i], v) && AtMostOne(list, v)
    ensures forall j :: 0 <= j < |list| && j != i ==> !Accepts(list[j], v)
  {
  }

  lemma TheOneThatAccepts(s: Schema, v: Json) returns (k: int)
    requires s.oneOf.Variants? && AcceptsOneOf(s, v)
    ensures 0 <= k < |s.oneOf.list| && forall j :: 0 <= j < |s.oneOf.list| && j != k ==> !Accepts(s.oneOf.list[j], v)
  {
    k :| 0 <= k < |s.oneOf.list| && AcceptsOnly(s.oneOf.list, k, v);
  }

  lemma NormalVariantAccepts(s: Schema, v: Json) returns (i: nat)
    requires s.oneOf.Variants? && SoundChildren(s, false) && Accepts(Normalize(s), v)
    ensures i < |s.oneOf.list| && Accepts(s.oneOf.list[i], v)
  {
    NormalOneOfIsApart(s);
    AcceptsWithoutOneOf(Normalize(s), v);
    var n := Normalize(s).oneOf.list;
    var k :| 0 <= k < |Normalize(s).oneOf.list| && AcceptsOnly(Normalize(s).oneOf.list, k, v);
    i := k;
    assert Accepts(n[i], v) && n[i] == Normalize(s.oneOf.list[i]);
    NormalizingOnlyTightens(s.oneOf.list[i], v);
  }

  /**
   * A "oneOf" is kept with its variants tightened. On an otherwise sound schema normalising
   * tightens exactly when no value that the normal form accepts meets two of the original variants.
   */
  lemma TightensExactlyWhenOneOfStaysExclusive(s: Schema)
    requires SoundNode(s) && SoundChildren(s, false)
    ensures OnlyTightens(s) <==>
      (s.oneOf.Variants? ==> forall v :: Accepts(Normalize(s), v) ==> AtMostOne(s.oneOf.list, v))
  {
    var t := s.(oneOf := NoVariants);
    NormalOneOfIsApart(s);
    forall v | Accepts(Normalize(s), v)
      ensures Accepts(s, v) <==> (s.oneOf.Variants? ==> AtMostOne(s.oneOf.list, v))
    {
      AcceptsWithoutOneOf(Normalize(s), v);
      NormalizingOnlyTightens(t, v);
      AcceptsWithoutOneOf(s, v);
      if s.oneOf.Variants? {
        var i := NormalVariantAccepts(s, v);
        OneOfIsKeptExactlyWhen(s, v, i);
      }
    }
  }

  /** So variants that exclude each other, as by a tag, do no harm. */
  lemma ExclusiveVariantsTighten(s: Schema)
    requires SoundNode(s) && SoundChildren(s, false)
    requires s.oneOf.Variants? ==> forall v :: AtMostOne(s.oneOf.list, v)
    ensures OnlyTightens(s)
  {
    TightensExactlyWhenOneOfStaysExclusive(s);
  }

  /** Tightening one of two matching "oneOf" variants can make a rejected value accepted. */
  lemma OneOfLoosens(key: string)
    ensures !OnlyTightens(EMPTY.(oneOf := Variants([BARE_OBJECT, EMPTY])))
  {
    var s, v := EMPTY.(oneOf := Variants([BARE_OBJECT, EMPTY])), JObject(map[key := JNull]);
    var c, n := NormalizeChildren(s), Normalize(s);
    assert n.oneOf == c.oneOf == NormalizeVariants(s.oneOf);
    assert NormalizeChildren(EMPTY) == EMPTY && Normalize(EMPTY) == EMPTY;
    assert NormalizeChildren(BARE_OBJECT) == BARE_OBJECT && Normalize(BARE_OBJECT) == Transformed(BARE_OBJECT);
    assert Accepts(EMPTY, v) && Accepts(BARE_OBJECT, v);
    var b := Transformed(BARE_OBJECT);
    assert b.additional == Allow(false) && key in v.members && !Declares(b.properties, key);
    assert !AcceptsMembers(b, v);
    assert AcceptsOnly(n.oneOf.list, 1, v);
    assert n == EMPTY.(oneOf := n.oneOf);
    assert AcceptsMembers(n, v) && AcceptsItems(n, v) && AcceptsAnyOf(n, v) && AcceptsOneOf(n, v) && AcceptsAllOf(n, v);
    assert Accepts(n, v);
    assert Accepts(s.oneOf.list[0], v) && Accepts(s.oneOf.list[1], v);
    assert !AcceptsOnly(s.oneOf.list, 0, v) && !AcceptsOnly(s.oneOf.list, 1, v);
    assert !AcceptsOneOf(s, v);
  }

  // ---------------------------------------------------------------- the top level

  predicate NoComposition(s: Schema) {
    s.anyOf.NoVariants? && s.oneOf.NoVariants? && s.allOf.NoVariants?
  }

  /** The composition that is flattened: "anyOf" before "oneOf" before "allOf". */
  function Composition(s: Schema): seq<Schema> {
    if s.anyOf.Variants? then s.anyOf.list
    else if s.oneOf.Variants? then s.oneOf.list
    else if s.allOf.Variants? then s.allOf.list
    else []
  }

  predicate IsObjectVariant(s: Schema) {
    s.typ == Single(ObjectT) || s.properties.Properties?
  }

  function FirstObject(list: seq<Schema>): Option<Schema> {
    if list == [] then None else if IsObjectVariant(list[0]) then Some(list[0]) else FirstObject(list[1..])
  }

  function Or<T>(over: Option<T>, under: Option<T>): Option<T> {
    if over.Some? then over else under
  }

  /** All keywords of `over`, and those of `under` that `over` does not have. */
  function Merge(under: Schema, over: Schema): Schema {
    Schema(
      if over.typ != NoType then over.typ else under.typ,
      if over.properties != NoProperties then over.properties else under.properties,
      Or(over.required, under.required),
      if over.additional != NoAdditional then over.additional else under.additional,
      ArrayKeywords(
        if over.arrays.items != NoItems then over.arrays.items else under.arrays.items,
        Or(over.arrays.minItems, under.arrays.minItems), Or(over.arrays.maxItems, under.arrays.maxItems),
        Or(over.arrays.uniqueItems, under.arrays.uniqueItems)),
      if over.anyOf != NoVariants then over.anyOf else under.anyOf,
      if over.oneOf != NoVariants then over.oneOf else under.oneOf,
      if over.allOf != NoVariants then over.allOf else under.allOf,
      Or(over.format, under.format),
      Copied(
        Or(over.copied.enumeration, under.copied.enumeration), Or(over.copied.constant, under.copied.constant),
        Or(over.copied.minimum, under.copied.minimum), Or(over.copied.maximum, under.copied.maximum),
        Or(over.copied.minLength, under.copied.minLength), Or(over.copied.maxLength, under.copied.maxLength)))
  }

  function FlattenTopLevelComposition(s: Schema): Schema {
    if NoComposition(s) || Composition(s) == [] then s
    else
      var rest := s.(anyOf := NoVariants, oneOf := NoVariants, allOf := NoVariants);
      var objectVariant := FirstObject(Composition(s));
      if objectVariant.Some? then Merge(rest, objectVariant.value)
      else Merge(EMPTY.(typ := Single(ObjectT), additional := Allow(false)), rest)
  }

  /** For a schema that parses. */
  function NormalizeToolSchema(s: Schema): Schema {
    Normalize(FlattenTopLevelComposition(s))
  }

  /**
   * The result is free of top-level composition exactly when the input has none and no
   * array of types, or its composition is not empty, the object variant chosen from it, if
   * any, has neither, and the input has no array of types that the variant's type does not replace.
   */
  lemma TopLevelCompositionIsGoneExactlyWhen(s: Schema)
    ensures NoComposition(NormalizeToolSchema(s)) <==>
      if NoComposition(s) then !s.typ.Union?
      else
        Composition(s) != [] &&
        match FirstObject(Composition(s))
        case None => !s.typ.Union?
        case Some(chosen) => NoComposition(chosen) && !chosen.typ.Union? && (chosen.typ == NoType ==> !s.typ.Union?)
  {
    var f := FlattenTopLevelComposition(s);
    assert Normalize(f) == Transformed(NormalizeChildren(f));
  }

  /** Of a variant that holds a composition, that composition comes to the top. */
  lemma NestedCompositionSurfaces(inner: Schema)
    ensures var variant := BARE_OBJECT.(allOf := Variants([inner]));
      !NoComposition(NormalizeToolSchema(EMPTY.(anyOf := Variants([variant]))))
  {
    var variant := BARE_OBJECT.(allOf := Variants([inner]));
    var s := EMPTY.(anyOf := Variants([variant]));
    assert Composition(s)[0] == variant && FirstObject(Composition(s)) == Some(variant);
    TopLevelCompositionIsGoneExactlyWhen(s);
  }

  /** What comes out of the whole normaliser is strict, up to the bare variants of arrays of types. */
  lemma ToolSchemasAreStrict(s: Schema)
    ensures Strict(NormalizeToolSchema(s), true)
    ensures Strict(NormalizeToolSchema(s), false) <==> Regular(FlattenTopLevelComposition(s))
  {
    OutputIsStrict(FlattenTopLevelComposition(s));
  }
}
