/**
 The OpenAPI subset read by the server-SDK generator (`tools/openapi-sdk/ir.py`) and the
 intermediate representation it produces: models, enums and type references.

 `Shape` says, without any loader state, which type references are right for a schema node;
 `Closed` says that every name a type reference mentions is defined.
 */
module Schema {
  import opened Wrappers
  import Decimal

  // ---- input -------------------------------------------------------------------------------

  datatype TypeKeyword = NoType | One(name: string) | Many(names: seq<string>)

  datatype Property = Property(name: string, schema: Schema)

  /** A list-valued keyword that may be missing. */
  datatype Parts = NoParts | Parts(list: seq<Schema>)

  datatype Properties = NoProperties | Properties(list: seq<Property>)

  /** A JSON schema: `true`, `false`, or an object with the keywords the loader looks at. */
  datatype Schema =
    | Literal(value: bool)
    | Node(ref: Option<string>, allOf: Parts, oneOf: Parts, anyOf: Parts,
           typ: TypeKeyword, values: Option<seq<string>>, properties: Properties, required: Option<seq<string>>,
           additional: Option<Schema>, items: Option<Schema>, format: Option<string>,
           description: Option<string>, otherKeys: set<string>)

  const EMPTY: Schema :=
    Node(None, NoParts, NoParts, NoParts, NoType, None, NoProperties, None, None, None, None, None, {})

  predicate IsEmpty(s: Schema) {
    s == EMPTY
  }

  /** No keyword but `description`, `example`, `default` and `deprecated`. */
  predicate AnnotationOnly(s: Schema)
    requires s.Node?
  {
    && s == EMPTY.(description := s.description, otherKeys := s.otherKeys)
    && s.otherKeys <= {"example", "default", "deprecated"}
  }

  predicate IsNullType(s: Schema)
    requires s.Node?
  {
    s.typ == One("null")
  }

  /** The properties of an object schema; none when the keyword is missing. */
  function Props(s: Schema): seq<Property>
    requires s.Node?
  {
    if s.properties.Properties? then s.properties.list else []
  }

  function Description(s: Schema): string {
    if s.Node? && s.description.Some? then s.description.value else ""
  }

  predicate IsRequired(s: Schema, name: string)
    requires s.Node?
  {
    s.required.Some? && name in s.required.value
  }

  // ---- output ------------------------------------------------------------------------------

  datatype Kind =
    | Any
    | Text(format: Option<string>)
    | Scalar(scalar: string, format: Option<string>)
    | Array(items: TypeRef)
    | Map(items: TypeRef)
    | Ref(name: string)
    | EnumRef(name: string)
    | Union(variants: seq<TypeRef>)

  datatype TypeRef = TypeRef(kind: Kind, nullable: bool) {
    function WithNullable(n: bool): TypeRef {
      TypeRef(kind, n || nullable)
    }
  }

  datatype Field = Field(name: string, typ: TypeRef, required: bool, description: string)

  datatype Model = Model(name: string, fields: seq<Field>, description: string, additional: Option<TypeRef>)

  datatype Enum = Enum(name: string, values: seq<string>, description: string)

  datatype SchemaError =
    | UnsupportedRef | UnknownSchema | NotAnObject | PartNotAnObject | PartUnderConstruction
    | NotASchema | NoVariants | UnsupportedTypeList | Untyped | UnsupportedType

  // ---- names -------------------------------------------------------------------------------

  const PREFIX: string := "#/components/schemas/"

  function RefName(ref: string): Result<string, SchemaError> {
    if PREFIX <= ref then Ok(ref[|PREFIX|..]) else Err(UnsupportedRef)
  }

  function Rename(name: string): string {
    if name == "Error" then "ErrorEnvelope"
    else if name == "ErrorEnvelopeError" then "ErrorDetail"
    else name
  }

  predicate IsAlphanumeric(c: char) {
    '0' <= c <= '9' || 'A' <= c <= 'Z' || 'a' <= c <= 'z'
  }

  function Upper(c: char): char {
    if 'a' <= c <= 'z' then c - ' ' else c
  }

  /** Drop the separators and capitalise the letter after each. */
  function PascalFrom(s: string, wordStart: bool): string {
    if s == [] then []
    else if IsAlphanumeric(s[0]) then [if wordStart then Upper(s[0]) else s[0]] + PascalFrom(s[1..], false)
    else PascalFrom(s[1..], true)
  }

  function Pascal(s: string): string {
    PascalFrom(s, true)
  }

  // ---- how a node resolves -----------------------------------------------------------------

  /** `oneOf`, or `anyOf` when `oneOf` is missing or empty. */
  function Variants(s: Schema): Parts
    requires s.Node?
  {
    if s.oneOf.Parts? && s.oneOf.list != [] then s.oneOf else s.anyOf
  }

  function NonNull(vs: seq<Schema>): (rest: seq<Schema>)
    requires forall v :: v in vs ==> v.Node?
    ensures forall v :: v in rest ==> v in vs
    ensures forall v :: v in vs && !IsNullType(v) ==> v in rest
    ensures forall v :: v in rest ==> !IsNullType(v)
  {
    if vs == [] then []
    else if IsNullType(vs[0]) then NonNull(vs[1..])
    else [vs[0]] + NonNull(vs[1..])
  }

  predicate HasNull(vs: seq<Schema>)
    requires forall v :: v in vs ==> v.Node?
  {
    exists i :: 0 <= i < |vs| && IsNullType(vs[i])
  }

  function WithoutNull(names: seq<string>): seq<string> {
    if names == [] then []
    else if names[0] == "null" then WithoutNull(names[1..])
    else [names[0]] + WithoutNull(names[1..])
  }

  /** The single type name of a node, with its nullability; a description alone is "any". */
  function TypeName(s: Schema): Result<(string, bool), SchemaError>
    requires s.Node?
  {
    match s.typ
    case One(name) => Ok((name, false))
    case Many(names) =>
      var rest := WithoutNull(names);
      if |rest| != 1 then Err(UnsupportedTypeList) else Ok((rest[0], "null" in names))
    case NoType =>
      if AnnotationOnly(s) then Ok(("any", false))
      else if s.properties.Properties? then Ok(("object", false))
      else Err(Untyped)
  }

  predicate IsAlternative(s: Schema)
    requires s.Node?
  {
    s.oneOf.Parts? || s.anyOf.Parts?
  }

  function VariantHint(hint: string, i: nat): string {
    hint + "Variant" + Decimal.Print(i)
  }

  /** Every alternative is an object, as the loader's `.get` calls need. */
  predicate ReadableVariants(s: Schema)
    requires s.Node?
  {
    Variants(s).Parts? && forall v :: v in Variants(s).list ==> v.Node?
  }

  // ---- the specification of resolution -----------------------------------------------------

  /** `t` is a right type reference for schema `s` under the name hint `hint`. */
  ghost predicate Shape(s: Schema, hint: string, t: TypeRef)
    decreases s, 1
  {
    if s.Literal? then s.value && t == TypeRef(Any, false)
    else if IsEmpty(s) then t == TypeRef(Any, false)
    else if s.ref.Some? then
      && RefName(s.ref.value).Ok?
      && (t.kind == Ref(Rename(RefName(s.ref.value).value)) || t.kind == EnumRef(Rename(RefName(s.ref.value).value)))
    else if s.allOf.Parts? then t == TypeRef(Ref(hint), false)
    else if IsAlternative(s) then ReadableVariants(s) && AlternativeShape(s, hint, t)
    else TypedShape(s, hint, t)
  }

  ghost predicate AlternativeShape(s: Schema, hint: string, t: TypeRef)
    requires s.Node? && ReadableVariants(s)
    decreases s, 0
  {
    var vs := Variants(s).list;
    var rest := NonNull(vs);
    assert forall i :: 0 <= i < |rest| ==> rest[i] in rest && rest[i] in vs;
    assert forall v :: v in vs ==> v < s;
    if |rest| == 1 then
      && (HasNull(vs) ==> t.nullable)
      && (Shape(rest[0], hint, t) || (HasNull(vs) && Shape(rest[0], hint, t.(nullable := false))))
    else
      && t.nullable == HasNull(vs)
      && t.kind.Union? && |t.kind.variants| == |rest|
      && forall i :: 0 <= i < |rest| ==> Shape(rest[i], VariantHint(hint, i), t.kind.variants[i])
  }

  ghost predicate TypedShape(s: Schema, hint: string, t: TypeRef)
    requires s.Node?
    decreases s, 0
  {
    && TypeName(s).Ok?
    && var (name, nullable) := TypeName(s).value;
    if s.typ.NoType? && name == "any" then t == TypeRef(Any, false)
    else
      && t.nullable == nullable
      && match name
         case "string" => if IsEnum(s) then t.kind.EnumRef? else t.kind == Text(s.format)
         case "integer" => t.kind == Scalar(name, s.format)
         case "number" => t.kind == Scalar(name, s.format)
         case "boolean" => t.kind == Scalar(name, s.format)
         case "array" => t.kind.Array? && if s.items.Some? then Shape(s.items.value, hint + "Item", t.kind.items)
                                          else t.kind.items == TypeRef(Any, false)
         case "object" =>
           if Props(s) != [] then t.kind.Ref?
           else t.kind.Map? && if HasMapValue(s) then Shape(s.additional.value, hint + "Value", t.kind.items)
                               else t.kind.items == TypeRef(Any, false)
         case _ => false
  }

  predicate IsEnum(s: Schema)
    requires s.Node?
  {
    s.values.Some? && |s.values.value| > 1
  }

  /** `additionalProperties` is a schema object with at least one keyword. */
  predicate HasMapValue(s: Schema)
    requires s.Node?
  {
    s.additional.Some? && s.additional.value.Node? && !IsEmpty(s.additional.value)
  }

  /** Model `m` has the properties of object schema `s`, in order, named after `m`. */
  ghost predicate ObjectShape(s: Schema, m: Model)
    requires s.Node?
  {
    && FieldsShape(s, m.name, m.fields)
    && |m.fields| == |Props(s)|
    && m.description == Description(s)
    && AdditionalShape(s, m.name, m.additional)
  }

  /** The first fields are the first properties. */
  ghost predicate FieldsShape(s: Schema, name: string, fields: seq<Field>)
    requires s.Node?
  {
    && |fields| <= |Props(s)|
    && forall i :: 0 <= i < |fields| ==> FieldShape(s, name, Props(s)[i], fields[i])
  }

  ghost predicate FieldShape(s: Schema, name: string, p: Property, f: Field)
    requires s.Node?
  {
    && f.name == p.name
    && f.required == IsRequired(s, p.name)
    && f.description == Description(p.schema)
    && Shape(p.schema, name + Pascal(p.name), f.typ)
  }

  ghost predicate AdditionalShape(s: Schema, name: string, additional: Option<TypeRef>)
    requires s.Node?
  {
    if s.additional == Some(Literal(true)) || (s.additional == Some(EMPTY) && Props(s) == []) then
      additional == Some(TypeRef(Any, false))
    else if HasMapValue(s) then additional.Some? && Shape(s.additional.value, name + "Value", additional.value)
    else additional == None
  }

  // ---- closure -----------------------------------------------------------------------------

  /** Every model name in `t` is in `refs` and every enum name in `enums`. */
  ghost predicate Closed(t: TypeRef, refs: set<string>, enums: set<string>) {
    match t.kind
    case Array(items) => Closed(items, refs, enums)
    case Map(items) => Closed(items, refs, enums)
    case Ref(name) => name in refs
    case EnumRef(name) => name in enums
    case Union(vs) => forall i :: 0 <= i < |vs| ==> Closed(vs[i], refs, enums)
    case _ => true
  }

  ghost predicate ClosedFields(fields: seq<Field>, refs: set<string>, enums: set<string>) {
    forall i :: 0 <= i < |fields| ==> Closed(fields[i].typ, refs, enums)
  }

  ghost predicate ClosedModel(m: Model, refs: set<string>, enums: set<string>) {
    && ClosedFields(m.fields, refs, enums)
    && (m.additional.Some? ==> Closed(m.additional.value, refs, enums))
  }

  ghost predicate ClosedModels(models: map<string, Model>, refs: set<string>, enums: set<string>) {
    forall n :: n in models ==> ClosedModel(models[n], refs, enums)
  }

  lemma {:induction false} ClosedMonotone(t: TypeRef, refs: set<string>, enums: set<string>, refs': set<string>,
      enums': set<string>)
    requires Closed(t, refs, enums) && refs <= refs' && enums <= enums'
    ensures Closed(t, refs', enums')
    decreases t
  {
    match t.kind
    case Array(items) => ClosedMonotone(items, refs, enums, refs', enums');
    case Map(items) => ClosedMonotone(items, refs, enums, refs', enums');
    case Union(vs) =>
      forall i | 0 <= i < |vs|
        ensures Closed(vs[i], refs', enums')
      {
        ClosedMonotone(vs[i], refs, enums, refs', enums');
      }
    case _ =>
  }

  lemma ClosedFieldsMonotone(fields: seq<Field>, refs: set<string>, enums: set<string>, refs': set<string>,
      enums': set<string>)
    requires ClosedFields(fields, refs, enums) && refs <= refs' && enums <= enums'
    ensures ClosedFields(fields, refs', enums')
  {
    forall i | 0 <= i < |fields|
      ensures Closed(fields[i].typ, refs', enums')
    {
      ClosedMonotone(fields[i].typ, refs, enums, refs', enums');
    }
  }

  lemma ClosedModelMonotone(m: Model, refs: set<string>, enums: set<string>, refs': set<string>, enums': set<string>)
    requires ClosedModel(m, refs, enums) && refs <= refs' && enums <= enums'
    ensures ClosedModel(m, refs', enums')
  {
    ClosedFieldsMonotone(m.fields, refs, enums, refs', enums');
    if m.additional.Some? {
      ClosedMonotone(m.additional.value, refs, enums, refs', enums');
    }
  }

  lemma ClosedModelsMonotone(models: map<string, Model>, refs: set<string>, enums: set<string>, refs': set<string>,
      enums': set<string>)
    requires ClosedModels(models, refs, enums) && refs <= refs' && enums <= enums'
    ensures ClosedModels(models, refs', enums')
  {
    forall n | n in models
      ensures ClosedModel(models[n], refs', enums')
    {
      ClosedModelMonotone(models[n], refs, enums, refs', enums');
    }
  }

  // ---- merging the parts of an allOf -------------------------------------------------------

  function Names(fields: seq<Field>): (names: seq<string>)
    ensures |names| == |fields| && forall i :: 0 <= i < |fields| ==> names[i] == fields[i].name
  {
    seq(|fields|, i requires 0 <= i < |fields| => fields[i].name)
  }

  /** Assignment to an insertion-ordered dictionary of fields: an old key keeps its place. */
  function Put(fields: seq<Field>, f: Field): seq<Field> {
    if fields == [] then [f]
    else if fields[0].name == f.name then [f] + fields[1..]
    else [fields[0]] + Put(fields[1..], f)
  }

  function PutAll(fields: seq<Field>, more: seq<Field>): seq<Field>
    decreases |more|
  {
    if more == [] then fields else PutAll(Put(fields, more[0]), more[1..])
  }

  ghost predicate Distinct(names: seq<string>) {
    forall i, j :: 0 <= i < j < |names| ==> names[i] != names[j]
  }

  /** Names in order of first occurrence, each once. */
  function FirstOccurrences(names: seq<string>): seq<string> {
    if names == [] then []
    else
      var init, last := names[..|names| - 1], names[|names| - 1];
      if last in init then FirstOccurrences(init) else FirstOccurrences(init) + [last]
  }

  lemma {:induction false} FirstOccurrencesContents(names: seq<string>)
    ensures Distinct(FirstOccurrences(names))
    ensures forall n :: n in FirstOccurrences(names) <==> n in names
    decreases |names|
  {
    if names != [] {
      var init, last := names[..|names| - 1], names[|names| - 1];
      assert names == init + [last];
      FirstOccurrencesContents(init);
    }
  }

  /** The last field with a given name. */
  function LastNamed(fields: seq<Field>, name: string): (f: Option<Field>)
    ensures f.Some? ==> f.value in fields && f.value.name == name
    ensures f.None? ==> name !in Names(fields)
  {
    if fields == [] then None
    else if fields[|fields| - 1].name == name then Some(fields[|fields| - 1])
    else
      var init := fields[..|fields| - 1];
      assert fields == init + [fields[|fields| - 1]];
      LastNamed(init, name)
  }

  lemma {:induction false} PutNames(fields: seq<Field>, f: Field)
    ensures Names(Put(fields, f)) == if f.name in Names(fields) then Names(fields) else Names(fields) + [f.name]
    decreases |fields|
  {
    if fields == [] {
    } else if fields[0].name == f.name {
      assert f.name == Names(fields)[0];
    } else {
      PutNames(fields[1..], f);
      assert Names(fields) == [fields[0].name] + Names(fields[1..]);
      assert Names(Put(fields, f)) == [fields[0].name] + Names(Put(fields[1..], f));
    }
  }

  lemma {:induction false} PutMembers(fields: seq<Field>, f: Field)
    requires Distinct(Names(fields))
    ensures forall g :: g in Put(fields, f) <==> g == f || (g in fields && g.name != f.name)
    decreases |fields|
  {
    if fields != [] {
      assert fields == [fields[0]] + fields[1..];
      if fields[0].name == f.name {
        forall g | g in fields[1..]
          ensures g.name != f.name
        {
          var i :| 0 <= i < |fields[1..]| && fields[1..][i] == g;
          assert Names(fields)[i + 1] == g.name && Names(fields)[0] == f.name;
        }
      } else {
        assert Names(fields[1..]) == Names(fields)[1..];
        PutMembers(fields[1..], f);
      }
    }
  }

  /** The dictionary after a run of assignments. */
  function Merge(input: seq<Field>): seq<Field> {
    if input == [] then [] else Put(Merge(input[..|input| - 1]), input[|input| - 1])
  }

  lemma SnocAppend(a: seq<Field>, b: seq<Field>)
    requires b != []
    ensures (a + [b[0]]) + b[1..] == a + b
    ensures (a + [b[0]])[..|a|] == a
  {
  }

  lemma {:induction false} PutAllIsMerge(input: seq<Field>, more: seq<Field>)
    ensures PutAll(Merge(input), more) == Merge(input + more)
    decreases |more|
  {
    if more == [] {
      assert input + more == input;
    } else {
      SnocAppend(input, more);
      PutAllIsMerge(input + [more[0]], more[1..]);
    }
  }

  /** Names come in order of first occurrence. */
  lemma {:induction false} MergeNames(input: seq<Field>)
    ensures Names(Merge(input)) == FirstOccurrences(Names(input))
    decreases |input|
  {
    if input != [] {
      var init, f := input[..|input| - 1], input[|input| - 1];
      MergeNames(init);
      PutNames(Merge(init), f);
      FirstOccurrencesContents(Names(init));
      assert Names(input)[..|input| - 1] == Names(init);
    }
  }

  /** A field is kept exactly when it is the last one with its name. */
  lemma {:induction false} MergeMembers(input: seq<Field>, g: Field)
    ensures g in Merge(input) <==> LastNamed(input, g.name) == Some(g)
    decreases |input|
  {
    if input != [] {
      var init, f := input[..|input| - 1], input[|input| - 1];
      MergeMembers(init, g);
      MergeNames(init);
      FirstOccurrencesContents(Names(init));
      PutMembers(Merge(init), f);
    }
  }

  function AllFields(parts: seq<Model>): seq<Field> {
    if parts == [] then [] else AllFields(parts[..|parts| - 1]) + parts[|parts| - 1].fields
  }

  function FirstAdditional(parts: seq<Model>): Option<TypeRef> {
    if parts == [] then None
    else
      var before := FirstAdditional(parts[..|parts| - 1]);
      if before.Some? then before else parts[|parts| - 1].additional
  }

  function FirstDescription(parts: seq<Model>): string {
    if parts == [] then ""
    else
      var before := FirstDescription(parts[..|parts| - 1]);
      if before != "" then before else parts[|parts| - 1].description
  }

  /** `m` is the merge of `parts`. */
  ghost predicate MergedFrom(m: Model, parts: seq<Model>) {
    && m.fields == Merge(AllFields(parts))
    && m.additional == FirstAdditional(parts)
    && m.description == FirstDescription(parts)
  }

  /**
   A merged model has every field name of its parts exactly once, in order of first
   occurrence, and each field is the one from the last part that defines its name.
   */
  lemma MergedModelFields(m: Model, parts: seq<Model>)
    requires MergedFrom(m, parts)
    ensures Distinct(Names(m.fields))
    ensures Names(m.fields) == FirstOccurrences(Names(AllFields(parts)))
    ensures forall n :: n in Names(AllFields(parts)) <==> n in Names(m.fields)
    ensures forall i :: 0 <= i < |m.fields| ==> LastNamed(AllFields(parts), m.fields[i].name) == Some(m.fields[i])
  {
    MergeNames(AllFields(parts));
    FirstOccurrencesContents(Names(AllFields(parts)));
    forall i | 0 <= i < |m.fields|
      ensures LastNamed(AllFields(parts), m.fields[i].name) == Some(m.fields[i])
    {
      assert m.fields[i] in m.fields;
      MergeMembers(AllFields(parts), m.fields[i]);
    }
  }
}
