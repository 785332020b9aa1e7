/**
 * What flattening and normalising do to a tool's schema, keyword by keyword
 * (src/utils/json-schema.ts, lines 142-276).
 */
module ToolSchemas {
  import opened Text
  import opened JsonSchema

  // ---------------------------------------------------------------- flattening

  /** The list that is flattened: of "anyOf", or of "oneOf" without "anyOf", or of "allOf" without both. */
  predicate IsComposedOf(s: Schema, list: seq<Schema>) {
    || s.anyOf == Variants(list)
    || (s.anyOf == NoVariants && s.oneOf == Variants(list))
    || (s.anyOf == NoVariants && s.oneOf == NoVariants && s.allOf == Variants(list))
  }

  predicate IsObject(v: Schema) {
    v.typ == Single(ObjectT) || v.properties != NoProperties
  }

  /** The result has what `over` defines, and what `under` has where `over` defines nothing. */
  predicate Overrides<T(==)>(result: T, over: T, under: T, nothing: T) {
    (over != nothing ==> result == over) && (over == nothing ==> result == under)
  }

  predicate OverridesArrays(result: ArrayKeywords, over: ArrayKeywords, under: ArrayKeywords) {
    && Overrides(result.items, over.items, under.items, NoItems)
    && Overrides(result.minItems, over.minItems, under.minItems, None)
    && Overrides(result.maxItems, over.maxItems, under.maxItems, None)
    && Overrides(result.uniqueItems, over.uniqueItems, under.uniqueItems, None)
  }

  predicate OverridesCopied(result: Copied, over: Copied, under: Copied) {
    && Overrides(result.enumeration, over.enumeration, under.enumeration, None)
    && Overrides(result.constant, over.constant, under.constant, None)
    && Overrides(result.minimum, over.minimum, under.minimum, None)
    && Overrides(result.maximum, over.maximum, under.maximum, None)
    && Overrides(result.minLength, over.minLength, under.minLength, None)
    && Overrides(result.maxLength, over.maxLength, under.maxLength, None)
  }

  /** Keyword by keyword, apart from the compositions. */
  predicate OverridesKeywords(result: Schema, over: Schema, under: Schema) {
    && Overrides(result.typ, over.typ, under.typ, NoType)
    && Overrides(result.properties, over.properties, under.properties, NoProperties)
    && Overrides(result.required, over.required, under.required, None)
    && Overrides(result.additional, over.additional, under.additional, NoAdditional)
    && Overrides(result.format, over.format, under.format, None)
    && OverridesArrays(result.arrays, over.arrays, under.arrays)
    && OverridesCopied(result.copied, over.copied, under.copied)
  }

  /** The first object among the variants lies over the schema, and the only compositions left are its own. */
  lemma FirstObjectLiesOver(s: Schema, a: seq<Schema>, v: Schema, b: seq<Schema>)
    requires IsComposedOf(s, a + ([v] + b)) && IsObject(v) && forall i :: 0 <= i < |a| ==> !IsObject(a[i])
    ensures var f := FlattenTopLevelComposition(s);
      OverridesKeywords(f, v, s) && f.anyOf == v.anyOf && f.oneOf == v.oneOf && f.allOf == v.allOf
  {
    FirstIsFound(a, v, b);
  }

  lemma {:induction false} FirstIsFound(a: seq<Schema>, v: Schema, b: seq<Schema>)
    requires IsObject(v) && forall i :: 0 <= i < |a| ==> !IsObject(a[i])
    ensures FirstObject(a + ([v] + b)) == Some(v)
  {
    if a != [] {
      FirstIsFound(a[1..], v, b);
      assert (a + ([v] + b))[1..] == a[1..] + ([v] + b);
    } else {
      assert a + ([v] + b) == [v] + b;
    }
  }

  /** Without one, the schema lies over a closed object type, and no composition is left. */
  lemma WithoutObjectTheSchemaLiesOver(s: Schema, list: seq<Schema>)
    requires IsComposedOf(s, list) && list != [] && forall i :: 0 <= i < |list| ==> !IsObject(list[i])
    ensures var f := FlattenTopLevelComposition(s);
      && OverridesKeywords(f, s, EMPTY.(typ := Single(ObjectT), additional := Allow(false)))
      && f.anyOf == f.oneOf == f.allOf == NoVariants
  {
    NoneIsFound(list);
  }

  lemma {:induction false} NoneIsFound(list: seq<Schema>)
    requires forall i :: 0 <= i < |list| ==> !IsObject(list[i])
    ensures FirstObject(list) == None
  {
    if list != [] { NoneIsFound(list[1..]); }
  }

  /** Nothing else is flattened. */
  lemma OthersStay(s: Schema)
    requires IsComposedOf(s, []) || (s.anyOf == s.oneOf == s.allOf == NoVariants)
    ensures FlattenTopLevelComposition(s) == s
  {
  }

  /** The properties a caller is offered are those of the first object, each normalised, and nothing else may be passed. */
  lemma ToolTakesTheVariantsProperties(s: Schema, a: seq<Schema>, v: Schema, b: seq<Schema>)
    requires IsComposedOf(s, a + ([v] + b)) && v.properties.Properties? && forall i :: 0 <= i < |a| ==> !IsObject(a[i])
    ensures var tool := NormalizeToolSchema(s);
      && tool.properties.Properties? && tool.properties.m.Keys == v.properties.m.Keys
      && (forall k :: k in v.properties.m ==> tool.properties.m[k] == Normalize(v.properties.m[k]))
      && tool.additional == Allow(false)
  {
    FirstObjectLiesOver(s, a, v, b);
    var f := FlattenTopLevelComposition(s);
    assert f.properties == v.properties;
    PropertiesAreNormalised(f);
  }

  lemma PropertiesAreNormalised(s: Schema)
    requires s.properties.Properties?
    ensures var n := Normalize(s);
      && n.properties.Properties? && n.properties.m.Keys == s.properties.m.Keys
      && (forall k :: k in s.properties.m ==> n.properties.m[k] == Normalize(s.properties.m[k]))
      && n.additional == Allow(false)
  {
    assert Normalize(s).properties == NormalizeChildren(s).properties;
    assert NormalizeChildren(s).properties == Properties(map k | k in s.properties.m :: Normalize(s.properties.m[k]));
  }

  // ---------------------------------------------------------------- one node

  predicate IsSupportedFormat(format: string) {
    || format == "date-time" || format == "time" || format == "date" || format == "duration" || format == "email"
    || format == "hostname" || format == "ipv4" || format == "ipv6" || format == "uuid"
  }

  /** A format is kept exactly when it is one of nine. */
  lemma FormatIsKeptExactlyWhen(s: Schema)
    requires s.format.Some?
    ensures Normalize(s).format == if IsSupportedFormat(s.format.value) then s.format else None
  {
  }

  /** A required key that is not declared is dropped from its place. */
  lemma UndeclaredKeyIsDropped(s: Schema, a: seq<string>, key: string, b: seq<string>)
    requires s.properties.Properties? && key !in s.properties.m && s.required == Some(a + ([key] + b))
    ensures Normalize(s) == Normalize(s.(required := Some(a + b)))
  {
    var m := NormalizeChildren(s).properties.m;
    DroppedWithin(a, key, b, m);
    assert NormalizeChildren(s.(required := Some(a + b))) == NormalizeChildren(s).(required := Some(a + b));
  }

  lemma {:induction false} DroppedWithin(a: seq<string>, key: string, b: seq<string>, m: map<string, Schema>)
    requires key !in m
    ensures Within(a + ([key] + b), m) == Within(a + b, m)
  {
    if a == [] {
      assert a + ([key] + b) == [key] + b && a + b == b;
    } else {
      assert (a + ([key] + b))[1..] == a[1..] + ([key] + b) && (a + b)[1..] == a[1..] + b;
      DroppedWithin(a[1..], key, b, m);
    }
  }

  /** Keys that are all declared stay as they are. */
  lemma DeclaredKeysStay(s: Schema)
    requires s.properties.Properties? && s.required.Some? && s.required.value != []
    requires forall k :: k in s.required.value ==> k in s.properties.m
    ensures Normalize(s).required == s.required
  {
    AllWithin(s.required.value, NormalizeChildren(s).properties.m);
  }

  lemma {:induction false} AllWithin(keys: seq<string>, m: map<string, Schema>)
    requires forall k :: k in keys ==> k in m
    ensures Within(keys, m) == keys
  {
    if keys != [] { AllWithin(keys[1..], m); }
  }

  /** An array of types becomes as many variants, each a type and nothing else but the array keywords of an array. */
  lemma TypesBecomeVariants(s: Schema, ts: seq<TypeName>)
    requires s.typ == Union(ts)
    ensures var n := Normalize(s);
      && n.typ == NoType && n.anyOf.Variants? && |n.anyOf.list| == |ts| && n.arrays == NO_ARRAYS
      && forall i :: 0 <= i < |ts| ==>
           n.anyOf.list[i] == EMPTY.(typ := Single(ts[i]), arrays := if ts[i] == ArrayT then NormalizeChildren(s).arrays else NO_ARRAYS)
  {
  }
}
