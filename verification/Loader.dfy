/**
 The schema loader of `tools/openapi-sdk/ir.py`: mutually recursive resolution of a possibly
 cyclic schema graph into models and enums.

 The loader hands out references to schemas that are still being built.  The contracts below
 say that resolution terminates on every finite spec (the `decreases` clauses: names not yet
 seen, then the size of the node), that each result has the `Shape` its schema asks for, and
 that in the end no reference dangles.
 */
module Loader {
  import opened Wrappers
  import opened Schema
  import opened Support
  import Decimal

  /** The schema a node does nothing but refer to, directly or as the only real alternative. */
  function AliasTarget(s: Schema): Option<string> {
    if s.Literal? || IsEmpty(s) then None
    else if s.ref.Some? then
      if RefName(s.ref.value).Ok? then Some(RefName(s.ref.value).value) else None
    else if s.allOf.Parts? || !IsAlternative(s) || !ReadableVariants(s) then None
    else
      var vs := Variants(s).list;
      var rest := NonNull(vs);
      assert forall i :: 0 <= i < |rest| ==> rest[i] in rest && rest[i] in vs;
      if |rest| == 1 then AliasTarget(rest[0]) else None
  }

  /** A named string enum is registered without being resolved. */
  predicate IsStringEnum(s: Schema) {
    s.Node? && s.typ == One("string") && s.values.Some?
  }

  predicate IsAliasTo(s: Schema, name: string) {
    AliasTarget(s).Some? && Rename(AliasTarget(s).value) == name
  }

  /** A named schema that is only a reference to its own (renamed) name. */
  predicate IsSelfAlias(name: string, s: Schema) {
    !IsStringEnum(s) && IsAliasTo(s, Rename(name))
  }

  // ---- what inline schemas may register ----------------------------------------------------

  /** The two kinds of inline schema that are registered under their hint, whatever stands there. */
  datatype Registration = Merge | Enumeration

  /** The names an inline object may be lifted to: its hint, renamed, or a number behind that. */
  ghost predicate Lifted(hint: string, name: string) {
    name == Rename(hint) || exists i: nat :: i >= 2 && name == Numbered(Rename(hint), i)
  }

  /** Somewhere in this node, resolved under this hint, there is an inline merge or enum whose hint `n` may be. */
  ghost predicate Registers(s: Schema, hint: string, n: string, k: Registration)
    decreases s, 1
  {
    if s.Literal? || IsEmpty(s) || s.ref.Some? then false
    else if s.allOf.Parts? then
      || (k.Merge? && n == hint)
      || exists part :: part in s.allOf.list && part.Node? && part.ref.None? && RegistersIn(part, Rename(hint), n, k)
    else if IsAlternative(s) then
      && ReadableVariants(s)
      && var rest := NonNull(Variants(s).list);
      assert forall i :: 0 <= i < |rest| ==> rest[i] in rest && rest[i] in Variants(s).list;
      if |rest| == 1 then Registers(rest[0], hint, n, k)
      else exists i :: 0 <= i < |rest| && Registers(rest[i], VariantHint(hint, i), n, k)
    else if IsTyped(s, "string") then k.Enumeration? && n == hint && IsEnum(s)
    else if IsTyped(s, "array") then s.items.Some? && Registers(s.items.value, hint + "Item", n, k)
    else if !IsTyped(s, "object") then false
    else if Props(s) != [] then exists name :: Lifted(hint, name) && RegistersIn(s, name, n, k)
    else HasMapValue(s) && Registers(s.additional.value, hint + "Value", n, k)
  }

  /** The same for the properties of an object of this name. */
  ghost predicate RegistersIn(s: Schema, name: string, n: string, k: Registration)
    requires s.Node?
    decreases s, 0
  {
    || (exists p :: p in Props(s) && Registers(p.schema, name + Pascal(p.name), n, k))
    || (HasMapValue(s) && Registers(s.additional.value, name + "Value", n, k))
  }

  /** The values of a node that is an enum, directly or as the only real alternative. */
  function EnumValues(s: Schema): Option<seq<string>> {
    if s.Literal? || IsEmpty(s) || s.ref.Some? || s.allOf.Parts? then None
    else if !IsAlternative(s) then if IsTyped(s, "string") && IsEnum(s) then s.values else None
    else if !ReadableVariants(s) then None
    else
      var rest := NonNull(Variants(s).list);
      assert forall i :: 0 <= i < |rest| ==> rest[i] in rest && rest[i] in Variants(s).list;
      if |rest| == 1 then EnumValues(rest[0]) else None
  }

  function NamedEnum(s: Schema, name: string): Enum
    requires IsStringEnum(s)
  {
    Enum(name, s.values.value, Description(s))
  }

  /** The values of a named schema that is an enum. */
  function NamedValues(s: Schema): Option<seq<string>> {
    if IsStringEnum(s) then s.values else EnumValues(s)
  }

  /** A named schema that needs no other to become a model. */
  ghost predicate IsSelfContained(s: Schema) {
    !IsStringEnum(s) && OwnName(s) && Readable(s) && RefFree(s)
  }

  /** What becomes a model is no alias. */
  lemma {:induction false} OwnNameIsNoAlias(s: Schema)
    requires OwnName(s)
    ensures AliasTarget(s) == None
    decreases s
  {
    if !s.allOf.Parts? && IsAlternative(s) {
      var only := NonNull(Variants(s).list)[0];
      assert only in NonNull(Variants(s).list) && only in Variants(s).list;
      OwnNameIsNoAlias(only);
    }
  }

  class Loader {
    const schemas: map<string, Schema>
    const operations: seq<RawOperation>
    var models: map<string, Model>
    var enums: map<string, Enum>
    /** The keys of `enums` in insertion order. */
    var enumOrder: seq<string>
    var building: set<string>
    /** Every model ever registered, under the name it was registered as. */
    ghost var history: set<(string, Model)>
    /** The models that named schemas were defined as: by name, the schema and its model. */
    ghost var definitions: map<string, (string, Model)>
    /** Names of named schemas under which something else was registered. */
    ghost var displaced: set<string>

    constructor (schemas: map<string, Schema>, operations: seq<RawOperation>)
      ensures this.schemas == schemas && this.operations == operations
      ensures models == map[] && enums == map[] && building == {} && Valid()
      ensures definitions == map[] && displaced == {}
    {
      this.schemas, this.operations := schemas, operations;
      models, enums, enumOrder, building := map[], map[], [], {};
      history, definitions, displaced := {}, map[], {};
    }

    ghost predicate Valid()
      reads this
    {
      && (forall n :: n in enumOrder <==> n in enums)
      && (forall n :: n in models ==> (n, models[n]) in history)
      && building <= Named()
    }

    ghost function Named(): set<string> {
      set s | s in schemas :: Rename(s)
    }

    predicate NoSelfAlias() {
      forall s :: s in schemas ==> !IsSelfAlias(s, schemas[s])
    }

    ghost function Unvisited(): set<string>
      reads this
    {
      Named() - models.Keys - enums.Keys - building
    }

    /** The names that stand for something, or only for themselves. */
    ghost function Settled(): set<string>
      reads this
    {
      models.Keys + enums.Keys + SelfAliases()
    }

    ghost function Refs(): set<string>
      reads this
    {
      models.Keys + building + SelfAliases()
    }

    /** The names that are, in the spec, only references to themselves. */
    ghost function SelfAliases(): set<string> {
      set s | s in schemas && IsSelfAlias(s, schemas[s]) :: Rename(s)
    }

    /**
     No model mentions a name that is neither defined nor under construction nor a self-alias, and
     the model of a named schema is the one it was defined as, unless something displaced it.
     */
    ghost predicate Sound()
      reads this
    {
      ClosedModels(models, Refs(), enums.Keys) && Traced()
    }

    ghost predicate Traced()
      reads this
    {
      && AllTraced(Named() - building, models, definitions, displaced)
      && AllRepresent(schemas, definitions, history)
    }

    twostate predicate Grew()
      reads this
    {
      && Valid()
      && building == old(building)
      && old(models.Keys) <= models.Keys
      && old(enums.Keys) <= enums.Keys
      && old(history) <= history
    }

    method AddEnum(e: Enum)
      requires Valid()
      modifies this`enums, this`enumOrder
      ensures Grew() && enums == old(enums)[e.name := e] && models == old(models)
    {
      if e.name !in enums {
        enumOrder := enumOrder + [e.name];
      }
      enums := enums[e.name := e];
    }

    /** The first enum, in insertion order, with exactly these values. */
    static ghost predicate IsFirst(enums: map<string, Enum>, order: seq<string>, values: seq<string>, name: string) {
      exists i :: 0 <= i < |order| && order[i] == name && name in enums && enums[name].values == values
        && forall k :: 0 <= k < i && order[k] in enums ==> enums[order[k]].values != values
    }

    method FindEnum(values: seq<string>) returns (r: Option<string>)
      requires Valid()
      ensures r.Some? ==> r.value in enums && IsFirst(enums, enumOrder, values, r.value)
      ensures r.None? ==> forall n :: n in enums ==> enums[n].values != values
    {
      for i := 0 to |enumOrder|
        invariant forall k :: 0 <= k < i ==> enums[enumOrder[k]].values != values
      {
        if enums[enumOrder[i]].values == values {
          return Some(enumOrder[i]);
        }
      }
      return None;
    }

    // ---- fresh names for inline objects ----------------------------------------------------

    method UniqueName(name: string) returns (r: string)
      ensures name in building ==> r == name
      ensures name !in building && name !in models && name !in schemas && name !in enums ==> r == name
      ensures name !in building && (Taken(name) || name in enums) ==> IsFirstFree(name, r)
    {
      if name in building {
        return name;
      }
      if name !in models && name !in schemas && name !in enums {
        return name;
      }
      r := FirstFree(name);
    }

    /** The first number from 2 on whose name is free. */
    ghost predicate IsFirstFree(name: string, r: string)
      reads this
    {
      exists i :: i >= 2 && r == Numbered(name, i) && !Taken(r) && forall j :: 2 <= j < i ==> Taken(Numbered(name, j))
    }

    method FirstFree(name: string) returns (r: string)
      ensures IsFirstFree(name, r)
    {
      ghost var taken := models.Keys + schemas.Keys;
      var i := 2;
      while Taken(Numbered(name, i))
        invariant i >= 2
        invariant forall j :: 2 <= j < i ==> Taken(Numbered(name, j))
        decreases |taken| + 2 - i
      {
        NumberedAreMany(name, i + 1, taken);
        i := i + 1;
      }
      r := Numbered(name, i);
    }

    predicate Taken(name: string)
      reads this
    {
      name in models || name in schemas
    }

    // ---- resolution ------------------------------------------------------------------------

    /** What every successful resolution of a node promises. */
    twostate predicate Resolved(schema: Schema, hint: string, new t: TypeRef)
      reads this
    {
      && Shape(schema, hint, t)
      && (old(Sound()) ==> Sound() && Closed(t, Refs(), enums.Keys))
      && (t.kind.EnumRef? ==> t.kind.name in enums && models == old(models))
      && (t.kind.Ref? ==> IsAliasTo(schema, t.kind.name) || IsModelOf(schema, hint, t.kind.name))
      && EnumResolved(schema, hint, t)
    }

    /** An enum that is not only referred to: one with these values, found or registered under the hint. */
    twostate predicate EnumResolved(schema: Schema, hint: string, new t: TypeRef)
      reads this
    {
      EnumValues(schema).Some? ==>
        t.kind.EnumRef? && HasValues(t.kind.name, EnumValues(schema).value)
          && (t.kind.name == hint || old(t.kind.name in enums))
    }

    /** The model `name` now stands for `schema`. */
    ghost predicate IsModelOf(schema: Schema, hint: string, name: string)
      reads this
    {
      name in models && Represents(schema, hint, models[name], history)
    }

    /** A node that only refers to a name under construction succeeds and defines nothing. */
    twostate predicate AliasFollowed(schema: Schema, new r: Result<TypeRef, SchemaError>)
      reads this
    {
      forall name :: IsAliasTo(schema, name) && old(name in building && name !in models && name !in enums) ==>
        r.Ok? && r.value.kind == Ref(name) && models == old(models) && enums == old(enums)
    }

    /** The reference to a name that is defined or under construction. */
    function Known(name: string): Option<TypeRef>
      reads this
    {
      if name in models then Some(TypeRef(Ref(name), false))
      else if name in enums then Some(TypeRef(EnumRef(name), false))
      else if name in building then Some(TypeRef(Ref(name), false))
      else None
    }

    /** Resolve a named schema into a model or an enum and return a reference to it. */
    method EnsureNamed(s: string) returns (r: Result<TypeRef, SchemaError>)
      requires Valid()
      modifies this
      ensures Grew()
      ensures r.Ok? && old(Bounded()) ==> Bounded()
      ensures r.Ok? ==> r.value.kind == Ref(Rename(s)) || r.value.kind == EnumRef(Rename(s))
      ensures r.Ok? && r.value.kind.EnumRef? ==> Rename(s) in enums && models == old(models)
      ensures r.Ok? && r.value.kind.Ref? ==> Rename(s) in Refs()
      ensures r.Ok? && old(Sound()) ==> Sound()
      ensures old(Rename(s) in building && Rename(s) !in models && Rename(s) !in enums) ==>
        r == Ok(TypeRef(Ref(Rename(s)), false)) && models == old(models) && enums == old(enums)
      // Exactly when the name ends up defined.
      ensures r.Ok? && Rename(s) !in building ==>
        ((Rename(s) in models || Rename(s) in enums) <==>
          old(Rename(s) in models || Rename(s) in enums) || (s in schemas && !IsSelfAlias(s, schemas[s])))
      // A self-alias is accepted, and defines nothing.
      ensures s in schemas && IsSelfAlias(s, schemas[s]) && old(Known(Rename(s))).None? ==>
        r.Ok? && r.value.kind == Ref(Rename(s)) && models == old(models) && enums == old(enums)
      // When it succeeds.
      ensures DecidesNamed(building, old(Bounded()), s, r.Ok?)
      ensures r.Ok? ==> IsModelIfPart(building, old(Bounded()), s, r.value.kind.Ref? && Rename(s) in models)
      ensures s in schemas && IsStringEnum(schemas[s]) && old(Known(Rename(s))).None? ==>
        r == Ok(TypeRef(EnumRef(Rename(s)), false))
          && enums == old(enums)[Rename(s) := NamedEnum(schemas[s], Rename(s))]
      // What a name defined by this call stands for.
      ensures r.Ok? && r.value.kind.Ref? && old(Rename(s) !in models && Rename(s) !in building) ==>
        (Rename(s) in models ==> s in schemas && IsModelOf(schemas[s], Rename(s), Rename(s)))
      decreases Unvisited(), 0, EMPTY, 2
    {
      var known := Known(Rename(s));
      if known.Some? {
        KnownIsModel(s);
        return Ok(known.value);
      }
      if s !in schemas || schemas[s].Literal? {
        UnknownDecides(building, Bounded(), s);
        return Err(if s !in schemas then UnknownSchema else NotASchema);
      }
      r := DefineNamed(s, schemas[s], Rename(s));
    }

    /** The body of `EnsureNamed` for a name seen for the first time. */
    method DefineNamed(s: string, schema: Schema, name: string) returns (r: Result<TypeRef, SchemaError>)
      requires Valid() && s in schemas && schemas[s] == schema && schema.Node?
      requires name == Rename(s) && name !in models && name !in enums && name !in building
      modifies this
      ensures Grew()
      ensures IsStringEnum(schema) ==>
        r == Ok(TypeRef(EnumRef(name), false)) && enums == old(enums)[name := NamedEnum(schema, name)]
      ensures DecidesNamed(building, old(Bounded()), s, r.Ok?)
      ensures r.Ok? ==> IsModelIfPart(building, old(Bounded()), s, r.value.kind.Ref? && name in models)
      ensures r.Ok? && old(Bounded()) ==> Bounded()
      ensures r.Ok? ==> r.value.kind == Ref(name) || r.value.kind == EnumRef(name)
      ensures r.Ok? && r.value.kind.EnumRef? ==> name in enums && models == old(models)
      ensures r.Ok? && r.value.kind.Ref? ==> name in models || name in SelfAliases()
      ensures r.Ok? && old(Sound()) ==> Sound()
      ensures r.Ok? ==> ((name in models || name in enums) <==> !IsSelfAlias(s, schema))
      ensures IsSelfAlias(s, schema) ==>
        r.Ok? && r.value.kind == Ref(name) && models == old(models) && enums == old(enums)
      ensures r.Ok? && r.value.kind.Ref? && !IsSelfAlias(s, schema) ==> IsModelOf(schema, name, name)
      decreases Unvisited(), 0, EMPTY, 1
    {
      if IsStringEnum(schema) {
        DefinedIsModel(building, old(Bounded()), s, false);
        AddNamedEnum(s, schema, name);
        return Ok(TypeRef(EnumRef(name), false));
      }
      r := BuildNamed(s, schema, name);
      if r.Ok? {
        DefinedIsModel(building, old(Bounded()), s, r.value.kind.Ref? && name in models);
      }
    }

    method AddNamedEnum(s: string, schema: Schema, name: string)
      requires Valid() && s in schemas && schemas[s] == schema && name == Rename(s) && IsStringEnum(schema)
      modifies this`enums, this`enumOrder
      ensures Grew() && enums == old(enums)[name := NamedEnum(schema, name)]
      ensures (old(Sound()) ==> Sound()) && KeptIf(true)
    {
      AddEnum(NamedEnum(schema, name));
      StaysSound();
      NamedEnumIsBound(s, schema, name);
    }

    /** Any other schema is resolved under its own name, which counts as under construction meanwhile. */
    method BuildNamed(s: string, schema: Schema, name: string) returns (r: Result<TypeRef, SchemaError>)
      requires !IsStringEnum(schema)
      requires Valid() && s in schemas && schemas[s] == schema && schema.Node?
      requires name == Rename(s) && name !in models && name !in enums && name !in building
      modifies this
      ensures Grew()
      ensures DecidesNamed(building, old(Bounded()), s, r.Ok?)
      ensures r.Ok? && OwnName(schema) ==> r.value.kind.Ref? && name in models
      ensures r.Ok? && old(Bounded()) ==> Bounded()
      ensures r.Ok? ==> r.value.kind == Ref(name) || r.value.kind == EnumRef(name)
      ensures r.Ok? && r.value.kind.EnumRef? ==> name in enums && models == old(models)
      ensures r.Ok? && r.value.kind.Ref? ==> name in models || name in SelfAliases()
      ensures r.Ok? && old(Sound()) ==> Sound()
      ensures r.Ok? ==> ((name in models || name in enums) <==> !IsSelfAlias(s, schema))
      ensures IsSelfAlias(s, schema) ==>
        r.Ok? && r.value.kind == Ref(name) && models == old(models) && enums == old(enums)
      ensures r.Ok? && r.value.kind.Ref? && !IsSelfAlias(s, schema) ==> IsModelOf(schema, name, name)
      decreases Unvisited(), 0, EMPTY, 0
    {
      BeginNamed(name);
      r := ResolveUnder(s, schema, name, old(building));
      if r.Ok? && r.value.kind.EnumRef? && old(Sound()) {
        ClosedModelsMonotone(models, old(Refs()), old(enums.Keys), Refs() - {name} + SelfAliases(), enums.Keys);
      }
      r := FinishNamed(s, schema, name, r);
    }

    /** A schema under its own name: its model stands there, or its enum does, or it is only itself. */
    method ResolveUnder(s: string, schema: Schema, name: string, ghost others: set<string>)
      returns (r: Result<TypeRef, SchemaError>)
      requires !IsStringEnum(schema)
      requires Valid() && s in schemas && schemas[s] == schema && schema.Node?
      requires name == Rename(s) && name !in models && name !in enums && building == others + {name}
      modifies this
      ensures Grew()
      ensures DecidesNamed(others, old(Bounded()), s, r.Ok? && IsOwn(name, r.value))
      ensures r.Ok? && OwnName(schema) ==> r.value.kind == Ref(name) && name in models
      ensures r.Ok? && old(Bounded()) ==> Bounded()
      ensures r.Ok? && old(Sound()) ==> Sound()
      ensures r.Ok? && r.value.kind.EnumRef? ==> r.value.kind.name in enums && models == old(models)
      ensures r.Ok? && r.value.kind == Ref(name) && !IsSelfAlias(s, schema) ==> IsModelOf(schema, name, name)
      ensures r.Ok? && IsOwn(name, r.value) ==> IsFinished(schema, name)
      ensures IsAliasTo(schema, name) <==> IsSelfAlias(s, schema)
      ensures IsSelfAlias(s, schema) ==>
        r.Ok? && r.value.kind == Ref(name) && models == old(models) && enums == old(enums)
      decreases Unvisited(), 1, schema, 6
    {
      CoverNamed(building, s);
      r := Resolve(schema, name);
      if OwnName(schema) {
        OwnNameIsNoAlias(schema);
      }
      if IsSelfAlias(s, schema) {
        OkDecides(others, old(Bounded()), s);
      } else {
        NamedDecides(others, old(Bounded()), s, r.Ok?);
      }
    }

    static predicate IsOwn(name: string, t: TypeRef) {
      t.kind == Ref(name) || t.kind == EnumRef(name)
    }

    /** From now on the name counts as under construction. */
    method BeginNamed(name: string)
      requires Valid() && name in Named() && name !in models && name !in enums && name !in building
      modifies this`building
      ensures Valid() && building == old(building) + {name} && Unvisited() < old(Unvisited())
      ensures (old(Sound()) ==> Sound()) && KeptIf(true)
    {
      building := building + {name};
      StaysSound();
      StaysBounded(true);
      assert name in old(Unvisited()) && name !in Unvisited();
    }

    /** Everything stays sound when the name is no longer under construction. */
    ghost predicate Finishable(s: string, schema: Schema, name: string, t: TypeRef)
      reads this
    {
      && Sound()
      && (t.kind.Ref? && IsSelfAlias(s, schema) ==> name !in models)
      && (t.kind.EnumRef? ==> ClosedModels(models, Refs() - {name} + SelfAliases(), enums.Keys))
    }

    /** What the name should stand for stands under it. */
    ghost predicate IsFinished(schema: Schema, name: string)
      reads this
    {
      && (EnumValues(schema).Some? ==> HasValues(name, EnumValues(schema).value))
      && (IsModelName(name) ==> name in models)
    }

    /** The end of a construction, failed or not: the result must be a reference to the name itself. */
    method FinishNamed(s: string, schema: Schema, name: string, t: Result<TypeRef, SchemaError>)
      returns (r: Result<TypeRef, SchemaError>)
      requires Valid() && name in building && s in schemas && schemas[s] == schema && name == Rename(s)
      requires IsAliasTo(schema, name) <==> IsSelfAlias(s, schema)
      requires t.Ok? && t.value.kind == Ref(name) ==> IsAliasTo(schema, name) || IsModelOf(schema, name, name)
      requires t.Ok? && t.value.kind == EnumRef(name) ==> name !in models
      requires !IsStringEnum(schema)
      modifies this`building, this`definitions
      ensures building == old(building) - {name} && Valid()
      ensures r == if t.Err? || t.value.kind == Ref(name) || t.value.kind == EnumRef(name) then t else Err(NotAnObject)
      ensures r.Ok? && old(Finishable(s, schema, name, t.value)) ==> Sound()
      ensures r.Ok? ==> KeptIf(IsFinished(schema, name))
    {
      building := building - {name};
      if t.Err? {
        return t;
      }
      var kind := t.value.kind;
      if kind != Ref(name) && kind != EnumRef(name) {
        return Err(NotAnObject);
      }
      if kind.Ref? && !IsSelfAlias(s, schema) {
        OneMoreRepresented(schemas, definitions, history, name, s, models[name]);
        definitions := definitions[name := (s, models[name])];
      }
      FinishedIsBound(name, IsFinished(schema, name));
      assert kind.Ref? ==> Refs() == old(Refs());
      if kind.EnumRef? && old(Finishable(s, schema, name, t.value)) {
        ClosedModelsMonotone(models, old(Refs()) - {name} + SelfAliases(), enums.Keys, Refs(), enums.Keys);
      }
      r := t;
    }

    /** Soundness survives when only enums and the set of names under construction grow. */
    twostate lemma StaysSound()
      requires models == old(models) && old(enums.Keys) <= enums.Keys && old(building) <= building
      requires definitions == old(definitions) && displaced == old(displaced) && history == old(history)
      ensures old(Sound()) ==> Sound()
    {
      if old(Sound()) {
        ClosedModelsMonotone(models, old(Refs()), old(enums.Keys), Refs(), enums.Keys);
      }
    }

    // ---- displaced names -------------------------------------------------------------------

    /** Two schemas have this name. */
    ghost predicate Collides(n: string) {
      exists s, s' :: s in schemas && s' in schemas && s != s' && Rename(s) == n && Rename(s') == n
    }

    /**
     A name that an inline merge or enum may be registered under: somewhere inside another named
     schema or an operation there is one whose hint this may be.  A name that renaming gives to a
     schema is not protected from merges, and a name of two schemas is either's.
     */
    ghost predicate Reached(n: string, k: Registration) {
      || (if k.Merge? then n !in schemas else Collides(n))
      || (exists s :: s in schemas && Rename(s) != n && Registers(schemas[s], Rename(s), n, k))
      || (exists op, i :: op in operations && 0 <= i < |op.uses| && Registers(op.uses[i].schema, UseHint(op, i), n, k))
    }

    ghost predicate Allowed(building: set<string>, n: string, k: Registration) {
      n in building || Reached(n, k)
    }

    /** Whatever this node may register is allowed. */
    ghost predicate Covers(building: set<string>, schema: Schema, hint: string) {
      forall n, k :: Registers(schema, hint, n, k) ==> Allowed(building, n, k)
    }

    ghost predicate CoversIn(building: set<string>, schema: Schema, name: string)
      requires schema.Node?
    {
      forall n, k :: RegistersIn(schema, name, n, k) ==> Allowed(building, n, k)
    }

    ghost predicate CoversLifted(building: set<string>, schema: Schema, hint: string)
      requires schema.Node?
    {
      forall name :: Lifted(hint, name) ==> CoversIn(building, schema, name)
    }

    ghost predicate CoversPart(building: set<string>, part: Schema, name: string) {
      part.Node? && part.ref.None? ==> CoversIn(building, part, Rename(name))
    }

    ghost predicate CoversVariants(building: set<string>, rest: seq<Schema>, hint: string) {
      forall i :: 0 <= i < |rest| ==> Covers(building, rest[i], VariantHint(hint, i))
    }

    /** Only names that inline schemas may be registered under have been displaced, as models or as enums. */
    ghost predicate Bounded()
      reads this
    {
      forall n :: Bound(n)
    }

    ghost predicate Bound(n: string)
      reads this
    {
      && (n in displaced ==> Reached(n, Merge))
      && (forall s :: s in schemas && Rename(s) == n ==> EnumTrue(s))
      && (IsModelName(n) && n in enums ==> n in models || n in building)
    }

    /** A name that only schemas have that become models, and no inline enum: it is never only an enum. */
    ghost predicate IsModelName(n: string) {
      && n in Named() && !Reached(n, Enumeration)
      && forall s :: s in schemas && Rename(s) == n ==> OwnName(schemas[s]) && !IsStringEnum(schemas[s])
    }

    ghost predicate EnumsTrue()
      reads this
    {
      forall s :: s in schemas ==> EnumTrue(s)
    }

    /** The enum under the name of a schema that is one has its values. */
    ghost predicate EnumTrue(s: string)
      reads this
      requires s in schemas
    {
      var n, values := Rename(s), NamedValues(schemas[s]);
      n in enums && n !in building && values.Some? && !Reached(n, Enumeration) ==> enums[n].values == values.value
    }

    /** A named enum is what the name stands for. */
    twostate lemma NamedEnumIsBound(new s: string, new schema: Schema, new name: string)
      requires s in schemas && schemas[s] == schema && Rename(s) == name && IsStringEnum(schema)
      requires models == old(models) && building == old(building) && displaced == old(displaced)
      requires enums == old(enums)[name := NamedEnum(schema, name)]
      ensures old(Bounded()) ==> Bounded()
    {
      if old(Bounded()) {
        forall n
          ensures Bound(n)
        {
          assert old(Bound(n));
        }
      }
    }

    /** An inline enum under a name that it may have changes nothing else. */
    twostate lemma InlineEnumIsBound(new hint: string, new e: Enum)
      requires models == old(models) && building == old(building) && displaced == old(displaced)
      requires enums == old(enums)[hint := e]
      ensures KeptIf(Allowed(building, hint, Enumeration))
    {
      if old(Bounded()) && Allowed(building, hint, Enumeration) {
        forall n
          ensures Bound(n)
        {
          assert old(Bound(n));
        }
      }
    }

    /** More models and more names under construction change nothing, if what is displaced may be. */
    twostate lemma StaysBounded(new allowed: bool)
      requires enums == old(enums) && old(models.Keys) <= models.Keys && old(building) <= building
      requires allowed ==> forall n :: n in displaced && n !in old(displaced) ==> Reached(n, Merge)
      ensures KeptIf(allowed)
    {
      if old(Bounded()) && allowed {
        forall n
          ensures Bound(n)
        {
          assert old(Bound(n));
        }
      }
    }

    /** The end of a construction. */
    twostate lemma FinishedIsBound(new name: string, new finished: bool)
      requires enums == old(enums) && models == old(models) && displaced == old(displaced)
      requires building == old(building) - {name}
      requires finished && IsModelName(name) ==> name in models
      requires finished ==> forall s :: s in schemas && Rename(s) == name ==> EnumTrue(s)
      ensures KeptIf(finished)
    {
      if old(Bounded()) && finished {
        forall n
          ensures Bound(n)
        {
          assert old(Bound(n));
        }
      }
    }

    twostate predicate KeptIf(covered: bool)
      reads this
    {
      old(Bounded()) && covered ==> Bounded()
    }

    // ---- what loads ------------------------------------------------------------------------

    /**
     The named schemas can be ranked such that references do not go up and the parts of merges go
     down.  Each is a string enum, only itself, or readable and a model under its own name.
     */
    ghost predicate Ranks(levels: map<string, nat>) {
      forall s :: s in schemas ==> Rename(s) in levels && CanBeDefined(s, levels)
    }

    ghost predicate CanBeDefined(s: string, levels: map<string, nat>)
      requires s in schemas && Rename(s) in levels
    {
      var schema, k := schemas[s], levels[Rename(s)];
      && schema.Node?
      && (|| IsStringEnum(schema) || IsSelfAlias(s, schema)
          || (OwnName(schema) && Readable(schema) && RefsFit(schema, Upto(levels, k), Below(levels, k))))
    }

    ghost function Upto(levels: map<string, nat>, k: nat): set<string> {
      set s | s in schemas && Rename(s) in levels && levels[Rename(s)] <= k
    }

    /** The schemas below a rank that can be parts of merges. */
    ghost function Below(levels: map<string, nat>, k: nat): set<string> {
      set s | s in schemas && IsModelName(Rename(s)) && Rename(s) in levels && levels[Rename(s)] < k
    }

    ghost predicate IsRanked() {
      exists levels :: Ranks(levels)
    }

    ghost function Levels(): (levels: map<string, nat>)
      ensures IsRanked() ==> Ranks(levels)
    {
      if IsRanked() then
        var levels :| Ranks(levels);
        levels
      else map[]
    }

    ghost predicate NotAbove(n: string, m: string) {
      n in Levels() && m in Levels() && Levels()[n] <= Levels()[m]
    }

    ghost predicate Under(n: string, m: string) {
      n in Levels() && m in Levels() && Levels()[n] < Levels()[m]
    }

    /** The schemas that may be referred to while these names are under construction. */
    ghost function Open(building: set<string>): set<string> {
      set s | s in schemas && forall m :: m in building ==> NotAbove(Rename(s), m)
    }

    /** The schemas that may be parts of merges meanwhile. */
    ghost function Mergeable(building: set<string>): set<string> {
      set s | s in schemas && IsModelName(Rename(s)) && forall m :: m in building ==> Under(Rename(s), m)
    }

    /**
     Where references may go: nowhere, or anywhere that is open in a ranked spec in which names mean
     what they should.
     */
    ghost predicate Serves(building: set<string>, bounded: bool, refs: set<string>, parts: set<string>) {
      || (refs == {} && parts == {})
      || (bounded && IsRanked() && refs <= Open(building) && parts <= Mergeable(building))
    }

    /**
     Resolution succeeds on readable nodes only, and on all whose references may go where they go.
     */
    ghost predicate Decides(building: set<string>, bounded: bool, schema: Schema, hint: string, ok: bool) {
      && (ok ==> Readable(schema))
      && forall refs, parts :: RefsFit(schema, refs, parts) ==>
        (Readable(schema) && Serves(building, bounded && Covers(building, schema, hint), refs, parts) ==> ok)
    }

    ghost predicate DecidesInside(building: set<string>, bounded: bool, schema: Schema, name: string, ok: bool)
      requires schema.Node?
    {
      && (ok ==> ReadableInside(schema))
      && forall refs, parts :: RefsFitInside(schema, refs, parts) ==>
        (ReadableInside(schema) && Serves(building, bounded && CoversIn(building, schema, name), refs, parts) ==> ok)
    }

    ghost predicate DecidesLifted(building: set<string>, bounded: bool, schema: Schema, hint: string, ok: bool)
      requires schema.Node?
    {
      && (ok ==> ReadableInside(schema))
      && forall refs, parts :: RefsFitInside(schema, refs, parts) && ReadableInside(schema) ==>
        (Serves(building, bounded && CoversLifted(building, schema, hint), refs, parts) ==> ok)
    }

    ghost predicate DecidesVariants(building: set<string>, bounded: bool, rest: seq<Schema>, hint: string, ok: bool) {
      && (ok ==> AllReadable(rest))
      && forall refs, parts :: AllFit(rest, refs, parts) ==>
        (AllReadable(rest) && Serves(building, bounded && CoversVariants(building, rest, hint), refs, parts) ==> ok)
    }

    ghost predicate DecidesPart(building: set<string>, bounded: bool, part: Schema, name: string, ok: bool) {
      && (ok ==> ReadablePart(part))
      && forall refs, parts :: PartFits(part, refs, parts) ==>
        (ReadablePart(part) && Serves(building, bounded && CoversPart(building, part, name), refs, parts) ==> ok)
    }

    /** A name succeeds if references or parts of merges may go there, or its schema needs no other. */
    ghost predicate DecidesNamed(building: set<string>, bounded: bool, s: string, ok: bool) {
      && (forall refs, parts :: Serves(building, bounded, refs, parts) && (s in refs || s in parts) ==> ok)
      && (forall schema :: IsSelfContained(schema) && s in schemas && schemas[s] == schema ==> ok)
    }

    ghost predicate IsModelIfPart(building: set<string>, bounded: bool, s: string, isModel: bool) {
      forall refs, parts :: Serves(building, bounded, refs, parts) && s in parts ==> isModel
    }

    /** What can be part of a merge is defined as a model or not at all. */
    lemma KnownIsModel(s: string)
      requires Known(Rename(s)).Some?
      ensures IsModelIfPart(building, Bounded(), s, Rename(s) in models)
    {
      assert Bounded() ==> Bound(Rename(s));
    }

    lemma DefinedIsModel(building: set<string>, bounded: bool, s: string, isModel: bool)
      requires s in schemas && (OwnName(schemas[s]) && !IsStringEnum(schemas[s]) ==> isModel)
      ensures IsModelIfPart(building, bounded, s, isModel)
    {
    }

    lemma UnknownDecides(building: set<string>, bounded: bool, s: string)
      requires s !in schemas || schemas[s].Literal?
      ensures DecidesNamed(building, bounded, s, false)
    {
      RankedAreNodes();
    }

    lemma RankedAreNodes()
      ensures IsRanked() ==> forall s :: s in schemas ==> schemas[s].Node?
    {
      forall s | IsRanked() && s in schemas
        ensures schemas[s].Node?
      {
        assert CanBeDefined(s, Levels());
      }
    }

    lemma OkDecides(building: set<string>, bounded: bool, s: string)
      ensures DecidesNamed(building, bounded, s, true)
    {
    }

    /** A spec that loads: ranked schemas, and operations that use readable schemas and refer to those. */
    ghost predicate IsLoadable() {
      && IsRanked() && OperationsRead(operations)
      && forall op :: op in operations ==> UsesFit(op, schemas.Keys, Mergeable({}))
    }

    ghost predicate DecidesUses(building: set<string>, bounded: bool, op: RawOperation, ok: bool) {
      && (ok ==> UsesRead(op, |op.uses|))
      && forall refs, parts :: UsesFit(op, refs, parts) ==>
        (UsesRead(op, |op.uses|) && Serves(building, bounded && op in operations, refs, parts) ==> ok)
    }

    lemma UseRefused(building: set<string>, bounded: bool, now: bool, op: RawOperation, i: nat)
      requires i < |op.uses| && (bounded && op in operations ==> now)
      requires Decides(building, now, op.uses[i].schema, UseHint(op, i), false)
      ensures DecidesUses(building, bounded, op, false)
    {
      CoverUse(building, op, i);
      forall refs, parts | UsesFit(op, refs, parts) && UsesRead(op, |op.uses|)
        ensures !Serves(building, bounded && op in operations, refs, parts)
      {
        assert RefsFit(op.uses[i].schema, refs, parts);
      }
    }

    /** With nothing under construction, references may go anywhere. */
    lemma AllAreOpen(s: string)
      ensures s in schemas && DecidesNamed({}, true, s, false) ==> !IsRanked()
    {
      assert schemas.Keys == Open({});
      assert IsRanked() ==> Serves({}, true, schemas.Keys, {});
    }

    lemma LoadableDecides(op: RawOperation, ok: bool)
      requires IsLoadable() && op in operations && DecidesUses({}, true, op, ok)
      ensures ok
    {
      assert schemas.Keys == Open({});
      assert Serves({}, true, schemas.Keys, Mergeable({}));
    }

    lemma NamedDecides(building: set<string>, bounded: bool, s: string, ok: bool)
      requires s in schemas && !IsStringEnum(schemas[s]) && !IsSelfAlias(s, schemas[s])
      requires Decides(building + {Rename(s)}, bounded, schemas[s], Rename(s), ok)
      ensures DecidesNamed(building, bounded, s, ok && OwnName(schemas[s]))
    {
      forall refs, parts | Serves(building, bounded, refs, parts) && (s in refs || s in parts)
        ensures ok && OwnName(schemas[s])
      {
        OpenDecides(building, bounded, s, ok);
      }
      if IsSelfContained(schemas[s]) {
        assert RefsFit(schemas[s], {}, {});
      }
    }

    lemma OpenDecides(building: set<string>, bounded: bool, s: string, ok: bool)
      requires s in schemas && !IsStringEnum(schemas[s]) && !IsSelfAlias(s, schemas[s])
      requires Decides(building + {Rename(s)}, bounded, schemas[s], Rename(s), ok)
      requires bounded && IsRanked() && (s in Open(building) || s in Mergeable(building))
      ensures ok && OwnName(schemas[s])
    {
      var n, levels := Rename(s), Levels();
      var k := levels[n];
      assert CanBeDefined(s, levels);
      CoverNamed(building + {n}, s);
      RankedServe(building, s);
      assert RefsFit(schemas[s], Upto(levels, k), Below(levels, k));
    }

    /** What is not above a name that may be built may be followed while it is. */
    lemma RankedServe(building: set<string>, s: string)
      requires IsRanked() && s in schemas && (s in Open(building) || s in Mergeable(building))
      ensures Rename(s) in Levels()
      ensures Upto(Levels(), Levels()[Rename(s)]) <= Open(building + {Rename(s)})
      ensures Below(Levels(), Levels()[Rename(s)]) <= Mergeable(building + {Rename(s)})
    {
      forall m | m in building + {Rename(s)}
        ensures NotAbove(Rename(s), m)
      {
        assert m in building ==> NotAbove(Rename(s), m) || Under(Rename(s), m);
      }
    }

    /** A reference is decided by what it refers to. */
    lemma RefDecides(building: set<string>, bounded: bool, schema: Schema, hint: string, ok: bool)
      requires schema.Node? && schema.ref.Some? && RefName(schema.ref.value).Ok?
      requires DecidesNamed(building, bounded, RefName(schema.ref.value).value, ok)
      ensures Decides(building, bounded, schema, hint, ok)
    {
    }

    lemma PartRefDecides(building: set<string>, bounded: bool, part: Schema, name: string, ok: bool, isModel: bool)
      requires part.Node? && part.ref.Some? && RefName(part.ref.value).Ok?
      requires DecidesNamed(building, bounded, RefName(part.ref.value).value, ok)
      requires ok ==> IsModelIfPart(building, bounded, RefName(part.ref.value).value, isModel)
      ensures DecidesPart(building, bounded, part, name, ok && isModel)
    {
    }

    lemma InlinePartDecides(building: set<string>, bounded: bool, part: Schema, name: string, ok: bool)
      requires part.Node? && part.ref.None? && DecidesInside(building, bounded, part, Rename(name), ok)
      ensures DecidesPart(building, bounded, part, name, ok)
    {
      assert forall refs, parts :: PartFits(part, refs, parts) ==> RefsFitInside(part, refs, parts);
    }

    /** A refused property refuses the object, as what was registered before did not get in the way. */
    lemma PropertyRefused(building: set<string>, bounded: bool, now: bool, schema: Schema, name: string, p: Property)
      requires schema.Node? && p in Props(schema) && (bounded && CoversIn(building, schema, name) ==> now)
      requires Decides(building, now, p.schema, name + Pascal(p.name), false)
      ensures DecidesInside(building, bounded, schema, name, false)
    {
      CoverProperty(building, schema, name, p);
      forall refs, parts | RefsFitInside(schema, refs, parts) && ReadableInside(schema)
        ensures !Serves(building, bounded && CoversIn(building, schema, name), refs, parts)
      {
        assert RefsFit(p.schema, refs, parts);
      }
    }

    lemma AdditionalDecides(building: set<string>, bounded: bool, schema: Schema, name: string, ok: bool)
      requires schema.Node? && HasMapValue(schema)
      requires Decides(building, bounded, schema.additional.value, name + "Value", ok)
      ensures !ok ==> DecidesInside(building, bounded, schema, name, false)
      ensures ok ==> Readable(schema.additional.value)
    {
      CoverAdditional(building, schema, name);
      forall refs, parts | RefsFitInside(schema, refs, parts) && ReadableInside(schema) && !ok
        ensures !Serves(building, bounded && CoversIn(building, schema, name), refs, parts)
      {
        assert RefsFit(schema.additional.value, refs, parts);
      }
    }

    lemma InsideRefused(building: set<string>, bounded: bool, now: bool, schema: Schema, name: string)
      requires schema.Node? && (bounded && CoversIn(building, schema, name) ==> now)
      requires DecidesInside(building, now, schema, name, false)
      ensures DecidesInside(building, bounded, schema, name, false)
    {
    }

    lemma InsideRead(building: set<string>, bounded: bool, schema: Schema, name: string)
      requires schema.Node? && PropertiesRead(schema, |Props(schema)|)
      requires HasMapValue(schema) ==> Readable(schema.additional.value)
      ensures DecidesInside(building, bounded, schema, name, true)
    {
    }

    lemma PartRefused(building: set<string>, bounded: bool, now: bool, schema: Schema, hint: string, part: Schema)
      requires schema.Node? && schema.ref.None? && schema.allOf.Parts? && part in schema.allOf.list
      requires bounded && Covers(building, schema, hint) ==> now
      requires DecidesPart(building, now, part, hint, false)
      ensures Decides(building, bounded, schema, hint, false)
    {
      CoverPart(building, schema, hint, part);
      forall refs, parts | RefsFit(schema, refs, parts) && Readable(schema)
        ensures !Serves(building, bounded && Covers(building, schema, hint), refs, parts)
      {
        assert PartFits(part, refs, parts) && ReadablePart(part);
      }
    }

    lemma VariantRefused(building: set<string>, bounded: bool, now: bool, rest: seq<Schema>, hint: string, i: nat)
      requires i < |rest| && (bounded && CoversVariants(building, rest, hint) ==> now)
      requires Decides(building, now, rest[i], VariantHint(hint, i), false)
      ensures DecidesVariants(building, bounded, rest, hint, false)
    {
      forall refs, parts | AllFit(rest, refs, parts) && AllReadable(rest)
        ensures !Serves(building, bounded && CoversVariants(building, rest, hint), refs, parts)
      {
        assert RefsFit(rest[i], refs, parts);
      }
    }

    lemma OnlyDecides(building: set<string>, bounded: bool, schema: Schema, hint: string, ok: bool)
      requires schema.Node? && schema.ref.None? && !schema.allOf.Parts? && IsAlternative(schema)
      requires ReadableVariants(schema) && |NonNull(Variants(schema).list)| == 1
      requires Decides(building, bounded, NonNull(Variants(schema).list)[0], hint, ok)
      ensures Decides(building, bounded, schema, hint, ok)
    {
      var only := NonNull(Variants(schema).list)[0];
      AlternativesRead(schema);
      assert Readable(schema) <==> Readable(only);
      CoverOnly(building, schema, hint);
      forall refs, parts | RefsFit(schema, refs, parts)
        ensures RefsFit(only, refs, parts)
      {
        AlternativesFit(schema, refs, parts);
      }
    }

    lemma VariantsDecide(building: set<string>, bounded: bool, schema: Schema, hint: string, ok: bool)
      requires schema.Node? && schema.ref.None? && !schema.allOf.Parts? && IsAlternative(schema)
      requires ReadableVariants(schema) && |NonNull(Variants(schema).list)| != 1
      requires DecidesVariants(building, bounded, NonNull(Variants(schema).list), hint, ok)
      ensures Decides(building, bounded, schema, hint, ok)
    {
      AlternativesRead(schema);
      CoverVariants(building, schema, hint);
      forall refs, parts | RefsFit(schema, refs, parts)
        ensures AllFit(NonNull(Variants(schema).list), refs, parts)
      {
        AlternativesFit(schema, refs, parts);
      }
    }

    lemma ItemDecides(building: set<string>, bounded: bool, schema: Schema, hint: string, ok: bool)
      requires IsTyped(schema, "array") && schema.items.Some?
      requires Decides(building, bounded, schema.items.value, hint + "Item", ok)
      ensures Decides(building, bounded, schema, hint, ok)
    {
      ArrayReads(schema);
      CoverItem(building, schema, hint);
      forall refs, parts | RefsFit(schema, refs, parts)
        ensures RefsFit(schema.items.value, refs, parts)
      {
        ArrayFits(schema, refs, parts);
      }
    }

    lemma MapDecides(building: set<string>, bounded: bool, schema: Schema, hint: string, ok: bool)
      requires IsTyped(schema, "object") && Props(schema) == [] && HasMapValue(schema)
      requires Decides(building, bounded, schema.additional.value, hint + "Value", ok)
      ensures Decides(building, bounded, schema, hint, ok)
    {
      ObjectReads(schema);
      CoverMap(building, schema, hint);
      forall refs, parts | RefsFit(schema, refs, parts)
        ensures RefsFit(schema.additional.value, refs, parts)
      {
        ObjectFits(schema, refs, parts);
      }
    }

    lemma ObjectDecides(building: set<string>, bounded: bool, schema: Schema, hint: string, ok: bool)
      requires IsTyped(schema, "object") && Props(schema) != []
      requires DecidesLifted(building, bounded, schema, hint, ok)
      ensures Decides(building, bounded, schema, hint, ok)
    {
      ObjectReads(schema);
      CoverObject(building, schema, hint);
      forall refs, parts | RefsFit(schema, refs, parts)
        ensures RefsFitInside(schema, refs, parts)
      {
        ObjectFits(schema, refs, parts);
      }
    }

    /** An object resolved under one of the names it may be lifted to. */
    lemma LiftedDecides(building: set<string>, bounded: bool, schema: Schema, hint: string, name: string, ok: bool)
      requires schema.Node? && Lifted(hint, name) && DecidesInside(building, bounded, schema, name, ok)
      ensures DecidesLifted(building, bounded, schema, hint, ok)
    {
    }

    /** A node is decided when nothing about names matters. */
    lemma PlainDecides(building: set<string>, bounded: bool, schema: Schema, hint: string, ok: bool)
      requires ok <==> Readable(schema)
      ensures Decides(building, bounded, schema, hint, ok)
    {
    }

    // ---- registration ----------------------------------------------------------------------

    lemma CoverProperty(building: set<string>, schema: Schema, name: string, p: Property)
      requires schema.Node? && p in Props(schema)
      ensures CoversIn(building, schema, name) ==> Covers(building, p.schema, name + Pascal(p.name))
    {
      forall n, k | Registers(p.schema, name + Pascal(p.name), n, k)
        ensures RegistersIn(schema, name, n, k)
      {
      }
    }

    lemma CoverAdditional(building: set<string>, schema: Schema, name: string)
      requires schema.Node? && HasMapValue(schema)
      ensures CoversIn(building, schema, name) ==> Covers(building, schema.additional.value, name + "Value")
    {
      forall n, k | Registers(schema.additional.value, name + "Value", n, k)
        ensures RegistersIn(schema, name, n, k)
      {
      }
    }

    lemma CoverPart(building: set<string>, schema: Schema, hint: string, part: Schema)
      requires schema.Node? && schema.ref.None? && schema.allOf.Parts? && part in schema.allOf.list
      ensures Covers(building, schema, hint) && part.Node? && part.ref.None? ==> CoversIn(building, part, Rename(hint))
    {
      if part.Node? && part.ref.None? {
        forall n, k | RegistersIn(part, Rename(hint), n, k)
          ensures Registers(schema, hint, n, k)
        {
        }
      }
    }

    lemma CoverMerge(building: set<string>, schema: Schema, hint: string)
      requires schema.Node? && schema.ref.None? && schema.allOf.Parts?
      ensures Covers(building, schema, hint) ==> Allowed(building, hint, Merge)
    {
      assert Registers(schema, hint, hint, Merge);
    }

    lemma CoverOnly(building: set<string>, schema: Schema, hint: string)
      requires schema.Node? && schema.ref.None? && !schema.allOf.Parts? && IsAlternative(schema)
      requires ReadableVariants(schema) && |NonNull(Variants(schema).list)| == 1
      ensures Covers(building, schema, hint) ==> Covers(building, NonNull(Variants(schema).list)[0], hint)
    {
      forall n, k | Registers(NonNull(Variants(schema).list)[0], hint, n, k)
        ensures Registers(schema, hint, n, k)
      {
      }
    }

    lemma CoverVariants(building: set<string>, schema: Schema, hint: string)
      requires schema.Node? && schema.ref.None? && !schema.allOf.Parts? && IsAlternative(schema)
      requires ReadableVariants(schema) && |NonNull(Variants(schema).list)| != 1
      ensures Covers(building, schema, hint) ==> CoversVariants(building, NonNull(Variants(schema).list), hint)
    {
      var rest := NonNull(Variants(schema).list);
      forall i, n, k | 0 <= i < |rest| && Registers(rest[i], VariantHint(hint, i), n, k)
        ensures Registers(schema, hint, n, k)
      {
      }
    }

    lemma CoverItem(building: set<string>, schema: Schema, hint: string)
      requires IsTyped(schema, "array") && schema.items.Some?
      ensures Covers(building, schema, hint) ==> Covers(building, schema.items.value, hint + "Item")
    {
      forall n, k | Registers(schema.items.value, hint + "Item", n, k)
        ensures Registers(schema, hint, n, k)
      {
      }
    }

    lemma CoverMap(building: set<string>, schema: Schema, hint: string)
      requires IsTyped(schema, "object") && Props(schema) == [] && HasMapValue(schema)
      ensures Covers(building, schema, hint) ==> Covers(building, schema.additional.value, hint + "Value")
    {
      forall n, k | Registers(schema.additional.value, hint + "Value", n, k)
        ensures Registers(schema, hint, n, k)
      {
      }
    }

    lemma CoverObject(building: set<string>, schema: Schema, hint: string)
      requires IsTyped(schema, "object") && Props(schema) != []
      ensures Covers(building, schema, hint) ==> CoversLifted(building, schema, hint)
    {
      forall name, n, k | Lifted(hint, name) && RegistersIn(schema, name, n, k)
        ensures Registers(schema, hint, n, k)
      {
      }
    }

    lemma CoverEnum(building: set<string>, schema: Schema, hint: string)
      requires IsTyped(schema, "string") && IsEnum(schema)
      ensures Covers(building, schema, hint) ==> Allowed(building, hint, Enumeration)
    {
      assert Registers(schema, hint, hint, Enumeration);
    }

    /** Under construction, a named schema only registers its own name or names that are reached. */
    lemma CoverNamed(building: set<string>, s: string)
      requires s in schemas && Rename(s) in building
      ensures Covers(building, schemas[s], Rename(s))
    {
      forall n, k | Registers(schemas[s], Rename(s), n, k)
        ensures Allowed(building, n, k)
      {
        assert n != Rename(s) ==> Reached(n, k);
      }
    }

    lemma CoverUse(building: set<string>, op: RawOperation, i: nat)
      requires i < |op.uses|
      ensures op in operations ==> Covers(building, op.uses[i].schema, UseHint(op, i))
    {
    }

    /** The name an inline object gets: lifted from its hint, and no schema's own unless under construction. */
    lemma LiftedName(hint: string, name: string)
      requires name == Rename(hint) || IsFirstFree(Rename(hint), name)
      ensures Lifted(hint, name)
    {
    }

    /** Registering a sound model keeps the table sound. */
    method AddModel(name: string, m: Model)
      requires Valid()
      modifies this`models, this`history, this`displaced
      ensures Grew() && models == old(models)[name := m]
      ensures displaced == if name in Named() && name !in building then old(displaced) + {name} else old(displaced)
      ensures KeptIf(name in Named() && name !in building ==> Reached(name, Merge))
      ensures old(Sound()) && ClosedModel(m, old(Refs()), enums.Keys) ==> Sound()
    {
      models := models[name := m];
      history := history + {(name, m)};
      if name in Named() && name !in building {
        displaced := displaced + {name};
      }
      StaysBounded(name in Named() && name !in building ==> Reached(name, Merge));
      if old(Sound()) && ClosedModel(m, old(Refs()), enums.Keys) {
        AllRepresentMonotone(schemas, definitions, old(history), history);
        assert ClosedModels(models, old(Refs()), enums.Keys);
        ClosedModelsMonotone(models, old(Refs()), enums.Keys, Refs(), enums.Keys);
      }
    }

    /** Resolve any schema node; `hint` names inline objects and enums. */
    method Resolve(schema: Schema, hint: string) returns (r: Result<TypeRef, SchemaError>)
      requires Valid()
      modifies this
      ensures Grew()
      ensures Decides(building, old(Bounded()), schema, hint, r.Ok?)
      ensures r.Ok? && old(hint in building) && Rename(hint) == hint && OwnName(schema) ==> r.value.kind == Ref(hint)
      ensures r.Ok? ==> KeptIf(Covers(building, schema, hint))
      ensures r.Ok? ==> Resolved(schema, hint, r.value)
      ensures AliasFollowed(schema, r)
      decreases Unvisited(), 1, schema, 5
    {
      if schema == Literal(true) || IsEmpty(schema) {
        PlainDecides(building, Bounded(), schema, hint, true);
        return Ok(TypeRef(Any, false));
      }
      if schema.Literal? {
        PlainDecides(building, Bounded(), schema, hint, false);
        return Err(NotASchema);
      }
      if schema.ref.Some? {
        r := ResolveRef(schema, hint);
        return;
      }
      if schema.allOf.Parts? {
        r := ResolveAllOf(schema, hint);
      } else if IsAlternative(schema) {
        r := ResolveAlternatives(schema, hint);
      } else {
        r := ResolveTyped(schema, hint);
      }
    }

    /** A reference is resolved by name. */
    method ResolveRef(schema: Schema, hint: string) returns (r: Result<TypeRef, SchemaError>)
      requires Valid() && schema.Node? && schema.ref.Some?
      modifies this
      ensures Grew()
      ensures Decides(building, old(Bounded()), schema, hint, r.Ok?)
      ensures r.Ok? ==> KeptIf(true)
      ensures r.Ok? ==> Resolved(schema, hint, r.value)
      ensures AliasFollowed(schema, r)
      decreases Unvisited(), 1, schema, 3
    {
      var name := RefName(schema.ref.value);
      if name.Err? {
        PlainDecides(building, Bounded(), schema, hint, false);
        return Err(name.error);
      }
      r := EnsureNamed(name.value);
      RefDecides(building, old(Bounded()), schema, hint, r.Ok?);
    }

    method ResolveAllOf(schema: Schema, hint: string) returns (r: Result<TypeRef, SchemaError>)
      requires Valid() && schema.Node? && schema.ref.None? && schema.allOf.Parts?
      modifies this
      ensures Grew()
      ensures Decides(building, old(Bounded()), schema, hint, r.Ok?)
      ensures r.Ok? ==> KeptIf(Covers(building, schema, hint))
      ensures r.Ok? ==> Resolved(schema, hint, r.value)
      decreases Unvisited(), 1, schema, 2
    {
      var merged, parts := MergeAllOf(schema, hint);
      if merged.Err? {
        return Err(merged.error);
      }
      CoverMerge(building, schema, hint);
      RegisterMerge(schema, hint, merged.value, parts);
      r := Ok(TypeRef(Ref(hint), false));
    }

    /** The merged model, under the schema's own description if it has one, is registered under the hint. */
    method RegisterMerge(schema: Schema, hint: string, merged: Model, ghost parts: seq<Model>)
      requires Valid() && schema.Node? && schema.ref.None? && schema.allOf.Parts? && MergedFrom(merged, parts)
      requires PartsShape(schema.allOf.list, hint, parts, history) && |parts| == |schema.allOf.list|
      modifies this`models, this`history, this`displaced
      ensures Grew() && IsModelOf(schema, hint, hint)
      ensures KeptIf(Allowed(building, hint, Merge))
      ensures old(Sound()) && ClosedModel(merged, old(Refs()), enums.Keys) ==> Sound()
    {
      ghost var before := history;
      var model := merged;
      if Description(schema) != "" {
        model := model.(description := Description(schema));
      }
      AddModel(hint, model);
      PartsShapeMonotone(schema.allOf.list, hint, parts, before, history);
      assert AllOfShape(schema, hint, model, history);
    }

    /** Merge the parts of an allOf into one model; `parts` are the models that went in. */
    method MergeAllOf(schema: Schema, name: string)
      returns (r: Result<Model, SchemaError>, ghost parts: seq<Model>)
      requires Valid() && schema.Node? && schema.ref.None? && schema.allOf.Parts?
      modifies this
      ensures Grew()
      ensures Decides(building, old(Bounded()), schema, name, r.Ok?)
      ensures r.Ok? ==> KeptIf(Covers(building, schema, name))
      ensures r.Ok? ==> r.value.name == name && MergedFrom(r.value, parts)
      ensures r.Ok? ==> PartsShape(schema.allOf.list, name, parts, history) && |parts| == |schema.allOf.list|
      ensures r.Ok? && old(Sound()) ==> Sound() && ClosedModel(r.value, Refs(), enums.Keys)
      decreases Unvisited(), 1, schema, 1
    {
      var merged := Model(name, [], "", None);
      parts := [];
      ghost var clean := old(Sound());
      for i := 0 to |schema.allOf.list|
        invariant Grew() && |parts| == i && merged.name == name
        invariant PartsShape(schema.allOf.list, name, parts, history) && KeptIf(Covers(building, schema, name))
        invariant MergedFrom(merged, parts)
        invariant AllPartsRead(schema.allOf.list[..i])
        invariant clean ==> Sound() && ClosedModel(merged, Refs(), enums.Keys)
      {
        ghost var refs, known, before := Refs(), enums.Keys, history;
        assert schema.allOf.list[i] < schema;
        CoverPart(building, schema, name, schema.allOf.list[i]);
        ghost var bounded := Bounded();
        var part := ResolvePart(schema.allOf.list[i], name);
        if part.Err? {
          PartRefused(building, old(Bounded()), bounded, schema, name, schema.allOf.list[i]);
          return Err(part.error), parts;
        }
        PartsShapeAppend(schema.allOf.list, name, parts, part.value, before, history);
        AllPartsReadAppend(schema.allOf.list, i);
        if clean {
          ClosedMerge(merged, part.value, refs, known, Refs(), enums.Keys);
        }
        MergePart(merged, parts, part.value);
        merged, parts := MergeInto(merged, part.value), parts + [part.value];
      }
      assert schema.allOf.list[..|schema.allOf.list|] == schema.allOf.list;
      PlainDecides(building, old(Bounded()), schema, name, true);
      r := Ok(merged);
    }

    /** One part of an allOf: a defined model, or an inline object that is not registered. */
    method ResolvePart(part: Schema, name: string) returns (r: Result<Model, SchemaError>)
      requires Valid()
      modifies this
      ensures Grew()
      ensures DecidesPart(building, old(Bounded()), part, name, r.Ok?)
      ensures r.Ok? ==> KeptIf(CoversPart(building, part, name))
      ensures r.Ok? ==> PartShape(part, name, r.value, history)
      ensures r.Ok? && old(Sound()) ==> Sound() && ClosedModel(r.value, Refs(), enums.Keys)
      decreases Unvisited(), 1, part, 3
    {
      if part.Literal? {
        return Err(NotASchema);
      }
      if part.ref.None? {
        r := ObjectModel(part, name, false);
        InlinePartDecides(building, old(Bounded()), part, name, r.Ok?);
        return;
      }
      var target := RefName(part.ref.value);
      if target.Err? {
        return Err(target.error);
      }
      var sub := EnsureNamed(target.value);
      PartRefDecides(building, old(Bounded()), part, name, sub.Ok?,
        sub.Ok? && sub.value.kind.Ref? && Rename(target.value) in models);
      if sub.Err? {
        return Err(sub.error);
      }
      if !sub.value.kind.Ref? {
        return Err(PartNotAnObject);
      }
      if sub.value.kind.name !in models {
        return Err(PartUnderConstruction);
      }
      r := Ok(models[sub.value.kind.name]);
    }

    /** The model of an object schema; registered under a fresh name unless it is a part. */
    method ObjectModel(schema: Schema, hint: string, register: bool) returns (r: Result<Model, SchemaError>)
      requires Valid() && schema.Node?
      modifies this
      ensures Grew()
      ensures !register ==> DecidesInside(building, old(Bounded()), schema, Rename(hint), r.Ok?)
      ensures register ==> DecidesLifted(building, old(Bounded()), schema, hint, r.Ok?)
      ensures r.Ok? && register ==> KeptIf(CoversLifted(building, schema, hint))
      ensures r.Ok? && !register ==> KeptIf(CoversIn(building, schema, Rename(hint)))
      ensures r.Ok? ==> ObjectShape(schema, r.value)
      ensures r.Ok? && !register ==> r.value.name == Rename(hint)
      ensures r.Ok? && register ==> r.value.name in models && models[r.value.name] == r.value
      ensures r.Ok? && register && old(Rename(hint) in building) ==> r.value.name == Rename(hint)
      ensures r.Ok? && old(Sound()) ==> Sound() && ClosedModel(r.value, Refs(), enums.Keys)
      decreases Unvisited(), 1, schema, 2
    {
      var name := Rename(hint);
      if register {
        name := UniqueName(name);
      }
      LiftedName(hint, name);
      r := BuildModel(schema, name);
      LiftedDecides(building, old(Bounded()), schema, hint, name, r.Ok?);
      if r.Ok? && register {
        ghost var refs := Refs();
        AddModel(name, r.value);
        if old(Sound()) {
          ClosedModelMonotone(r.value, refs, enums.Keys, Refs(), enums.Keys);
        }
      }
    }

    /** The model of an object schema under this name. */
    method BuildModel(schema: Schema, name: string) returns (r: Result<Model, SchemaError>)
      requires Valid() && schema.Node?
      modifies this
      ensures Grew()
      ensures DecidesInside(building, old(Bounded()), schema, name, r.Ok?)
      ensures r.Ok? ==> KeptIf(CoversIn(building, schema, name))
      ensures r.Ok? ==> ObjectShape(schema, r.value) && r.value.name == name
      ensures r.Ok? && old(Sound()) ==> Sound() && ClosedModel(r.value, Refs(), enums.Keys)
      decreases Unvisited(), 1, schema, 1
    {
      var fields := ResolveFields(schema, name);
      if fields.Err? {
        return Err(fields.error);
      }
      ghost var refs, known, bounded := Refs(), enums.Keys, Bounded();
      var additional := ResolveAdditional(schema, name);
      if additional.Err? {
        InsideRefused(building, old(Bounded()), bounded, schema, name);
        return Err(additional.error);
      }
      InsideRead(building, old(Bounded()), schema, name);
      if old(Sound()) {
        ClosedFieldsMonotone(fields.value, refs, known, Refs(), enums.Keys);
      }
      r := Ok(Model(name, fields.value, Description(schema), additional.value));
    }

    /** The fields of an object schema, one for each property in order. */
    method ResolveFields(schema: Schema, name: string) returns (r: Result<seq<Field>, SchemaError>)
      requires Valid() && schema.Node?
      modifies this
      ensures Grew()
      ensures r.Ok? ==> PropertiesRead(schema, |Props(schema)|)
      ensures r.Err? ==> DecidesInside(building, old(Bounded()), schema, name, false)
      ensures r.Ok? ==> KeptIf(CoversIn(building, schema, name))
      ensures r.Ok? ==> FieldsShape(schema, name, r.value) && |r.value| == |Props(schema)|
      ensures r.Ok? && old(Sound()) ==> Sound() && ClosedFields(r.value, Refs(), enums.Keys)
      decreases Unvisited(), 1, schema, 0
    {
      var props := Props(schema);
      var fields: seq<Field> := [];
      ghost var clean := old(Sound());
      for i := 0 to |props|
        invariant Grew() && |fields| == i
        invariant FieldsShape(schema, name, fields) && KeptIf(CoversIn(building, schema, name))
        invariant PropertiesRead(schema, i)
        invariant clean ==> Sound() && ClosedFields(fields, Refs(), enums.Keys)
      {
        ghost var refs, known := Refs(), enums.Keys;
        var p := props[i];
        assert p.schema < schema;
        CoverProperty(building, schema, name, p);
        ghost var bounded := Bounded();
        var t := Resolve(p.schema, name + Pascal(p.name));
        if t.Err? {
          PropertyRefused(building, old(Bounded()), bounded, schema, name, p);
          return Err(t.error);
        }
        var f := Field(p.name, t.value, IsRequired(schema, p.name), Description(p.schema));
        FieldsShapeAppend(schema, name, fields, f);
        PropertiesReadAppend(schema, i);
        if clean {
          ClosedFieldsAppend(fields, f, refs, known, Refs(), enums.Keys);
        }
        fields := fields + [f];
      }
      r := Ok(fields);
    }

    /** The type of the open part of an object, if it has one. */
    method ResolveAdditional(schema: Schema, name: string) returns (r: Result<Option<TypeRef>, SchemaError>)
      requires Valid() && schema.Node?
      modifies this
      ensures Grew()
      ensures r.Ok? && HasMapValue(schema) ==> Readable(schema.additional.value)
      ensures r.Err? ==> DecidesInside(building, old(Bounded()), schema, name, false)
      ensures r.Ok? ==> KeptIf(CoversIn(building, schema, name))
      ensures r.Ok? ==> AdditionalShape(schema, name, r.value)
      ensures r.Ok? && old(Sound()) ==>
        Sound() && (r.value.Some? ==> Closed(r.value.value, Refs(), enums.Keys))
      decreases Unvisited(), 1, schema, 0
    {
      if schema.additional == Some(Literal(true)) || (schema.additional == Some(EMPTY) && Props(schema) == []) {
        return Ok(Some(TypeRef(Any, false)));
      }
      if !HasMapValue(schema) {
        return Ok(None);
      }
      CoverAdditional(building, schema, name);
      var t := Resolve(schema.additional.value, name + "Value");
      AdditionalDecides(building, old(Bounded()), schema, name, t.Ok?);
      r := if t.Err? then Err(t.error) else Ok(Some(t.value));
    }

    method ResolveAlternatives(schema: Schema, hint: string) returns (r: Result<TypeRef, SchemaError>)
      requires Valid() && schema.Node? && schema.ref.None? && !schema.allOf.Parts? && IsAlternative(schema)
      modifies this
      ensures Grew()
      ensures Decides(building, old(Bounded()), schema, hint, r.Ok?)
      ensures r.Ok? && old(hint in building) && Rename(hint) == hint && OwnName(schema) ==> r.value.kind == Ref(hint)
      ensures r.Ok? ==> KeptIf(Covers(building, schema, hint))
      ensures r.Ok? ==> Resolved(schema, hint, r.value)
      ensures AliasFollowed(schema, r)
      decreases Unvisited(), 1, schema, 2
    {
      if !Variants(schema).Parts? {
        return Err(NoVariants);
      }
      if exists v :: v in Variants(schema).list && v.Literal? {
        return Err(NotASchema);
      }
      if |NonNull(Variants(schema).list)| == 1 {
        r := ResolveOnly(schema, hint);
      } else {
        r := ResolveUnion(schema, hint);
      }
    }

    /** One real alternative: its own type, nullable when `null` is the other one. */
    method ResolveOnly(schema: Schema, hint: string) returns (r: Result<TypeRef, SchemaError>)
      requires Valid() && schema.Node? && schema.ref.None? && !schema.allOf.Parts? && IsAlternative(schema)
      requires ReadableVariants(schema) && |NonNull(Variants(schema).list)| == 1
      modifies this
      ensures Grew()
      ensures Decides(building, old(Bounded()), schema, hint, r.Ok?)
      ensures r.Ok? && old(hint in building) && Rename(hint) == hint && OwnName(schema) ==> r.value.kind == Ref(hint)
      ensures r.Ok? ==> KeptIf(Covers(building, schema, hint))
      ensures r.Ok? ==> Resolved(schema, hint, r.value)
      ensures AliasFollowed(schema, r)
      decreases Unvisited(), 1, schema, 1
    {
      var nullable := HasNull(Variants(schema).list);
      var only := NonNull(Variants(schema).list)[0];
      assert only in NonNull(Variants(schema).list) && only in Variants(schema).list;
      CoverOnly(building, schema, hint);
      var t := Resolve(only, hint);
      OnlyDecides(building, old(Bounded()), schema, hint, t.Ok?);
      assert AliasTarget(schema) == AliasTarget(only);
      if t.Err? {
        return t;
      }
      ClosedIgnoresNullable(t.value, nullable, Refs(), enums.Keys);
      OnlyShape(schema, hint, t.value);
      r := Ok(t.value.WithNullable(nullable));
    }

    method ResolveUnion(schema: Schema, hint: string) returns (r: Result<TypeRef, SchemaError>)
      requires Valid() && schema.Node? && schema.ref.None? && !schema.allOf.Parts? && IsAlternative(schema)
      requires ReadableVariants(schema) && |NonNull(Variants(schema).list)| != 1
      modifies this
      ensures Grew()
      ensures Decides(building, old(Bounded()), schema, hint, r.Ok?)
      ensures r.Ok? ==> KeptIf(Covers(building, schema, hint))
      ensures r.Ok? ==> Resolved(schema, hint, r.value)
      decreases Unvisited(), 1, schema, 1
    {
      var nullable := HasNull(Variants(schema).list);
      var rest := NonNull(Variants(schema).list);
      VariantsAreSmaller(schema);
      CoverVariants(building, schema, hint);
      var resolved := ResolveVariants(schema, rest, hint);
      VariantsDecide(building, old(Bounded()), schema, hint, resolved.Ok?);
      if resolved.Err? {
        return Err(resolved.error);
      }
      assert AlternativeShape(schema, hint, TypeRef(Union(resolved.value), nullable));
      r := Ok(TypeRef(Union(resolved.value), nullable));
    }

    /** Several alternatives, each under its own numbered hint. */
    method ResolveVariants(schema: Schema, rest: seq<Schema>, hint: string)
      returns (r: Result<seq<TypeRef>, SchemaError>)
      requires Valid() && forall i :: 0 <= i < |rest| ==> rest[i] < schema
      modifies this
      ensures Grew()
      ensures DecidesVariants(building, old(Bounded()), rest, hint, r.Ok?)
      ensures r.Ok? ==> KeptIf(CoversVariants(building, rest, hint))
      ensures r.Ok? ==> VariantsShape(rest, hint, r.value) && |r.value| == |rest|
      ensures r.Ok? && old(Sound()) ==> Sound() && ClosedAll(r.value, Refs(), enums.Keys)
      decreases Unvisited(), 1, schema, 0
    {
      var resolved: seq<TypeRef> := [];
      ghost var clean := old(Sound());
      for i := 0 to |rest|
        invariant Grew() && |resolved| == i
        invariant VariantsShape(rest, hint, resolved) && KeptIf(CoversVariants(building, rest, hint))
        invariant AllReadable(rest[..i])
        invariant clean ==> Sound() && ClosedAll(resolved, Refs(), enums.Keys)
      {
        ghost var refs, known := Refs(), enums.Keys;
        ghost var bounded := Bounded();
        var t := Resolve(rest[i], VariantHint(hint, i));
        if t.Err? {
          VariantRefused(building, old(Bounded()), bounded, rest, hint, i);
          return Err(t.error);
        }
        VariantsShapeAppend(rest, hint, resolved, t.value);
        AllReadableAppend(rest, i);
        if clean {
          ClosedAllAppend(resolved, t.value, refs, known, Refs(), enums.Keys);
        }
        resolved := resolved + [t.value];
      }
      assert rest[..|rest|] == rest;
      r := Ok(resolved);
    }

    method ResolveTyped(schema: Schema, hint: string) returns (r: Result<TypeRef, SchemaError>)
      requires Valid() && schema.Node? && !IsEmpty(schema)
      requires schema.ref.None? && !schema.allOf.Parts? && !IsAlternative(schema)
      modifies this
      ensures Grew()
      ensures Decides(building, old(Bounded()), schema, hint, r.Ok?)
      ensures r.Ok? && old(hint in building) && Rename(hint) == hint && OwnName(schema) ==> r.value.kind == Ref(hint)
      ensures r.Ok? ==> KeptIf(Covers(building, schema, hint))
      ensures r.Ok? ==> Resolved(schema, hint, r.value)
      decreases Unvisited(), 1, schema, 4
    {
      var typed := TypeName(schema);
      if typed.Err? {
        UnknownTypeIsNotReadable(schema);
        PlainDecides(building, old(Bounded()), schema, hint, false);
        return Err(typed.error);
      }
      var (name, nullable) := typed.value;
      TypedIsNotOwn(schema, name);
      if schema.typ.NoType? && name == "any" {
        AnnotatedIsReadable(schema);
        PlainDecides(building, old(Bounded()), schema, hint, true);
        return Ok(TypeRef(Any, false));
      }
      match name
      case "string" =>
        var t := ResolveText(schema, hint, nullable);
        return Ok(t);
      case "array" => r := ResolveArray(schema, hint, nullable);
      case "object" => r := ResolveObject(schema, hint, nullable);
      case _ => r := ResolveScalar(schema, hint, name, nullable);
    }

    /** Numbers and booleans; anything else is no type. */
    method ResolveScalar(schema: Schema, hint: string, name: string, nullable: bool)
      returns (r: Result<TypeRef, SchemaError>)
      requires Valid() && IsTyped(schema, name) && TypeName(schema) == Ok((name, nullable))
      requires name !in {"string", "array", "object"} && !(schema.typ.NoType? && name == "any")
      ensures Decides(building, Bounded(), schema, hint, r.Ok?)
      ensures r.Ok? ==> r.value == TypeRef(Scalar(name, schema.format), nullable) && Shape(schema, hint, r.value)
      ensures EnumValues(schema).None?
    {
      if name !in {"integer", "number", "boolean"} {
        UnknownTypeIsNotReadable(schema);
        PlainDecides(building, Bounded(), schema, hint, false);
        return Err(UnsupportedType);
      }
      ScalarIsReadable(schema, name);
      PlainDecides(building, Bounded(), schema, hint, true);
      r := Ok(TypeRef(Scalar(name, schema.format), nullable));
    }

    predicate HasValues(name: string, values: seq<string>)
      reads this
    {
      name in enums && enums[name].values == values
    }

    /** A text, or an enum when it lists more than one value. */
    method ResolveText(schema: Schema, hint: string, nullable: bool) returns (t: TypeRef)
      requires Valid() && IsTyped(schema, "string") && TypeName(schema) == Ok(("string", nullable))
      modifies this`enums, this`enumOrder
      ensures Grew() && models == old(models)
      ensures t.nullable == nullable
      ensures Decides(building, old(Bounded()), schema, hint, true)
      ensures Resolved(schema, hint, t)
      ensures !IsEnum(schema) ==> t.kind == Text(schema.format) && enums == old(enums)
      ensures IsEnum(schema) ==> t.kind.EnumRef? && HasValues(t.kind.name, schema.values.value)
      ensures IsEnum(schema) ==> t.kind.name == hint || t.kind.name in old(enums)
      ensures KeptIf(Covers(building, schema, hint))
    {
      ScalarIsReadable(schema, "string");
      PlainDecides(building, old(Bounded()), schema, hint, true);
      if !IsEnum(schema) {
        return TypeRef(Text(schema.format), nullable);
      }
      CoverEnum(building, schema, hint);
      var name := ResolveEnum(schema, hint);
      t := TypeRef(EnumRef(name), nullable);
    }

    /** Reuse an enum with the same values, or register a new one under the hint. */
    method ResolveEnum(schema: Schema, hint: string) returns (name: string)
      requires Valid() && schema.Node? && schema.values.Some?
      modifies this`enums, this`enumOrder
      ensures Grew() && models == old(models) && HasValues(name, schema.values.value)
      ensures old(Sound()) ==> Sound()
      ensures KeptIf(Allowed(building, hint, Enumeration))
      ensures if exists n :: n in old(enums) && old(enums)[n].values == schema.values.value
        then enums == old(enums) && IsFirst(old(enums), old(enumOrder), schema.values.value, name)
        else name == hint && enums == old(enums)[hint := Enum(hint, schema.values.value, Description(schema))]
    {
      var found := FindEnum(schema.values.value);
      if found.Some? {
        return found.value;
      }
      AddEnum(Enum(hint, schema.values.value, Description(schema)));
      StaysSound();
      InlineEnumIsBound(hint, enums[hint]);
      return hint;
    }

    method ResolveArray(schema: Schema, hint: string, nullable: bool) returns (r: Result<TypeRef, SchemaError>)
      requires Valid() && IsTyped(schema, "array") && TypeName(schema) == Ok(("array", nullable))
      modifies this
      ensures Grew()
      ensures Decides(building, old(Bounded()), schema, hint, r.Ok?)
      ensures r.Ok? ==> KeptIf(Covers(building, schema, hint))
      ensures r.Ok? ==> r.value.kind.Array? && Resolved(schema, hint, r.value)
      decreases Unvisited(), 1, schema, 1
    {
      if schema.items.None? {
        ArrayReads(schema);
        PlainDecides(building, old(Bounded()), schema, hint, true);
        return Ok(TypeRef(Array(TypeRef(Any, false)), nullable));
      }
      CoverItem(building, schema, hint);
      var t := Resolve(schema.items.value, hint + "Item");
      ItemDecides(building, old(Bounded()), schema, hint, t.Ok?);
      r := if t.Err? then Err(t.error) else Ok(TypeRef(Array(t.value), nullable));
    }

    method ResolveObject(schema: Schema, hint: string, nullable: bool) returns (r: Result<TypeRef, SchemaError>)
      requires Valid() && IsTyped(schema, "object") && TypeName(schema) == Ok(("object", nullable))
      modifies this
      ensures Grew()
      ensures Decides(building, old(Bounded()), schema, hint, r.Ok?)
      ensures r.Ok? && old(hint in building) && Rename(hint) == hint && OwnName(schema) ==> r.value.kind == Ref(hint)
      ensures r.Ok? ==> KeptIf(Covers(building, schema, hint))
      ensures r.Ok? ==> Resolved(schema, hint, r.value)
      ensures r.Ok? && Props(schema) != [] ==>
        r.value.kind.Ref? && r.value.kind.name in models && ObjectShape(schema, models[r.value.kind.name])
      ensures r.Ok? && Props(schema) == [] ==> r.value.kind.Map? && MapShape(schema, hint, r.value.kind.items)
      decreases Unvisited(), 1, schema, 3
    {
      if Props(schema) != [] {
        CoverObject(building, schema, hint);
        var model := ObjectModel(schema, hint, true);
        ObjectDecides(building, old(Bounded()), schema, hint, model.Ok?);
        r := if model.Err? then Err(model.error) else Ok(TypeRef(Ref(model.value.name), nullable));
        return;
      }
      if !HasMapValue(schema) {
        ObjectReads(schema);
        PlainDecides(building, old(Bounded()), schema, hint, true);
        return Ok(TypeRef(Map(TypeRef(Any, false)), nullable));
      }
      CoverMap(building, schema, hint);
      var t := Resolve(schema.additional.value, hint + "Value");
      MapDecides(building, old(Bounded()), schema, hint, t.Ok?);
      r := if t.Err? then Err(t.error) else Ok(TypeRef(Map(t.value), nullable));
    }

    // ---- whole specs -----------------------------------------------------------------------

    /** The resolved request and response types of one operation. */
    method ResolveOperation(op: RawOperation) returns (r: Result<Operation, SchemaError>)
      requires Valid()
      modifies this
      ensures Grew()
      ensures DecidesUses(building, old(Bounded()), op, r.Ok?)
      ensures r.Ok? && op in operations && old(Bounded()) ==> Bounded()
      ensures r.Ok? ==> OperationShape(op, r.value)
      ensures r.Ok? && old(Sound()) ==> Sound() && ClosedAll(r.value.types, Refs(), enums.Keys)
    {
      var types: seq<TypeRef> := [];
      ghost var clean := old(Sound());
      for i := 0 to |op.uses|
        invariant Grew() && |types| == i
        invariant UsesShape(op, types) && UsesRead(op, i)
        invariant op in operations && old(Bounded()) ==> Bounded()
        invariant clean ==> Sound() && ClosedAll(types, Refs(), enums.Keys)
      {
        ghost var refs, known := Refs(), enums.Keys;
        CoverUse(building, op, i);
        ghost var bounded := Bounded();
        var t := Resolve(op.uses[i].schema, UseHint(op, i));
        if t.Err? {
          UseRefused(building, old(Bounded()), bounded, op, i);
          return Err(t.error);
        }
        UsesShapeAppend(op, types, t.value);
        UsesReadAppend(op, i);
        if clean {
          ClosedAllAppend(types, t.value, refs, known, Refs(), enums.Keys);
        }
        types := types + [t.value];
      }
      r := Ok(Operation(op.id, types));
    }

    /** Define every named schema, in order. */
    method DefineAll(names: seq<string>) returns (r: Result<(), SchemaError>)
      requires Valid() && building == {} && forall s :: s in schemas <==> s in names
      modifies this
      ensures Grew()
      ensures r.Ok? && old(Bounded()) ==> Bounded()
      ensures r.Ok? && old(Sound()) ==> Sound()
      ensures r.Ok? ==> AllSettled(names, Settled())
      ensures old(Bounded()) && IsRanked() ==> r.Ok?
    {
      for i := 0 to |names|
        invariant Grew()
        invariant old(Sound()) ==> Sound()
        invariant old(Bounded()) ==> Bounded()
        invariant AllSettled(names[..i], Settled())
      {
        ghost var before := Settled();
        ghost var bounded := Bounded();
        var t := EnsureNamed(names[i]);
        if t.Err? {
          assert names[i] in names;
          if bounded {
            AllAreOpen(names[i]);
          }
          return Err(t.error);
        }
        OneMoreSettled(names, i, before, Settled());
      }
      assert names[..|names|] == names;
      r := Ok(());
    }

    /**
     Load a whole spec.  When loading succeeds, every reference in every model and operation names
     an existing model or enum, unless it names an alias of itself; and every named schema has a
     model or an enum, unless it is one.  Without such aliases nothing dangles.  A named schema's
     model stands for it, and a named enum has its values, unless an inline merge or enum may be
     registered under that name.
     */
    method Load(names: seq<string>) returns (r: Result<seq<Operation>, SchemaError>)
      requires Valid() && models == map[] && enums == map[] && building == {} && definitions == map[] && displaced == {}
      requires forall s :: s in schemas <==> s in names
      modifies this
      ensures r.Ok? ==> |r.value| == |operations| && OperationsShape(operations, r.value)
      ensures r.Ok? ==> ClosedModels(models, Refs(), enums.Keys) && ClosedOperations(r.value, Refs(), enums.Keys)
      ensures r.Ok? ==> AllSettled(names, Settled())
      ensures Refs() == models.Keys + SelfAliases() && Settled() == models.Keys + enums.Keys + SelfAliases()
      ensures NoSelfAlias() ==> SelfAliases() == {}
      ensures r.Ok? ==> forall n :: n in Named() && n in models && !Reached(n, Merge) ==> StandsFor(n)
      ensures r.Ok? ==> EnumsTrue()
      ensures r.Ok? ==> forall s :: IsKeptEnum(s) ==> HasValues(Rename(s), schemas[s].values.value)
      ensures IsLoadable() ==> r.Ok?
      ensures r.Ok? ==> OperationsRead(operations)
    {
      StartsBounded();
      var defined := DefineAll(names);
      if defined.Err? {
        return Err(defined.error);
      }
      ghost var settled := Settled();
      r := LoadOperations();
      AllSettledMonotone(names, settled, Settled());
      if r.Ok? {
        AllStandFor();
        forall s | IsKeptEnum(s)
          ensures HasValues(Rename(s), schemas[s].values.value)
        {
          KeptEnumIsThere(s, names);
        }
      }
    }

    /** A named schema that is nothing but a string enum, under a name that nothing else may have. */
    ghost predicate IsKeptEnum(s: string) {
      && s in schemas && IsStringEnum(schemas[s])
      && schemas[s].ref.None? && schemas[s].allOf.NoParts? && !IsAlternative(schemas[s])
      && !Reached(Rename(s), Merge) && !Reached(Rename(s), Enumeration)
    }

    lemma KeptEnumIsThere(s: string, names: seq<string>)
      requires IsKeptEnum(s) && building == {} && EnumsTrue() && s in names && AllSettled(names, Settled())
      requires forall n :: n in Named() && n in models && !Reached(n, Merge) ==> StandsFor(n)
      ensures HasValues(Rename(s), schemas[s].values.value)
    {
      var n := Rename(s);
      assert n in Settled() && n in Named();
      OnlySchema(s);
      if n in models {
        assert StandsFor(n);
        TypeNameMeans(schemas[s], "object");
        assert false;
      }
      assert EnumTrue(s);
    }

    /** A name that does not collide is that of one schema. */
    lemma OnlySchema(s: string)
      requires s in schemas && !Reached(Rename(s), Enumeration)
      ensures forall s' :: s' in schemas && Rename(s') == Rename(s) ==> s' == s
    {
      forall s' | s' in schemas && Rename(s') == Rename(s)
        ensures s' == s
      {
        assert s' != s ==> Collides(Rename(s));
      }
    }

    method LoadOperations() returns (r: Result<seq<Operation>, SchemaError>)
      requires Valid() && building == {} && Sound() && Bounded()
      modifies this
      ensures Grew()
      ensures r.Ok? ==> |r.value| == |operations| && OperationsShape(operations, r.value)
      ensures r.Ok? ==> Sound() && Bounded() && ClosedOperations(r.value, Refs(), enums.Keys)
      ensures IsLoadable() ==> r.Ok?
      ensures r.Ok? ==> OperationsRead(operations)
    {
      var resolved: seq<Operation> := [];
      for i := 0 to |operations|
        invariant Grew() && |resolved| == i && OperationsShape(operations, resolved)
        invariant Sound() && Bounded() && ClosedOperations(resolved, Refs(), enums.Keys)
        invariant OperationsRead(operations[..i])
      {
        ghost var refs, known := Refs(), enums.Keys;
        var op := ResolveOperation(operations[i]);
        if IsLoadable() {
          LoadableDecides(operations[i], op.Ok?);
        }
        if op.Err? {
          return Err(op.error);
        }
        OperationsAppend(operations, resolved, op.value, refs, known, Refs(), enums.Keys);
        OperationsReadAppend(operations, i);
        resolved := resolved + [op.value];
      }
      assert operations[..|operations|] == operations;
      r := Ok(resolved);
    }

    /** The model under a name is that of a schema of this name. */
    ghost predicate StandsFor(n: string)
      reads this
    {
      exists s :: s in schemas && Rename(s) == n && IsModelOf(schemas[s], n, n)
    }

    lemma StartsBounded()
      requires enums == map[] && displaced == {}
      ensures Bounded()
    {
      forall n
        ensures Bound(n)
      {
      }
    }

    lemma AllStandFor()
      requires Traced() && Bounded() && building == {}
      ensures EnumsTrue()
      ensures forall n :: n in Named() && n in models && !Reached(n, Merge) ==> StandsFor(n)
    {
      forall s | s in schemas
        ensures EnumTrue(s)
      {
        assert Bound(Rename(s));
      }
      forall n | n in Named() && n in models && !Reached(n, Merge)
        ensures StandsFor(n)
      {
        assert Bound(n) && IsRepresented(schemas, definitions, history, n);
        assert definitions[n].0 in schemas;
      }
    }
  }

  /** A schema used by an operation: its response, a parameter or its body. */
  datatype Use = Use(suffix: string, schema: Schema)

  datatype RawOperation = RawOperation(id: string, uses: seq<Use>)

  datatype Operation = Operation(id: string, types: seq<TypeRef>)

  function UseHint(op: RawOperation, i: nat): string
    requires i < |op.uses|
  {
    Pascal(op.id) + op.uses[i].suffix
  }

  ghost predicate OperationShape(raw: RawOperation, op: Operation) {
    op.id == raw.id && |op.types| == |raw.uses| && UsesShape(raw, op.types)
  }

  /** The first schemas an operation uses are readable. */
  ghost predicate UsesRead(op: RawOperation, n: nat)
    requires n <= |op.uses|
  {
    forall i :: 0 <= i < n ==> Readable(op.uses[i].schema)
  }

  ghost predicate OperationsRead(ops: seq<RawOperation>) {
    forall op :: op in ops ==> UsesRead(op, |op.uses|)
  }

  lemma OperationsReadAppend(ops: seq<RawOperation>, i: nat)
    requires i < |ops| && OperationsRead(ops[..i]) && UsesRead(ops[i], |ops[i].uses|)
    ensures OperationsRead(ops[..i + 1])
  {
    assert ops[..i + 1] == ops[..i] + [ops[i]];
  }

  lemma UsesReadAppend(op: RawOperation, i: nat)
    requires i < |op.uses| && UsesRead(op, i) && Readable(op.uses[i].schema)
    ensures UsesRead(op, i + 1)
  {
  }

  ghost predicate UsesFit(op: RawOperation, refs: set<string>, parts: set<string>) {
    forall i :: 0 <= i < |op.uses| ==> RefsFit(op.uses[i].schema, refs, parts)
  }

  /** The first types are those of the first uses. */
  ghost predicate UsesShape(raw: RawOperation, types: seq<TypeRef>) {
    |types| <= |raw.uses| && forall i :: 0 <= i < |types| ==> Shape(raw.uses[i].schema, UseHint(raw, i), types[i])
  }

  lemma UsesShapeAppend(raw: RawOperation, types: seq<TypeRef>, t: TypeRef)
    requires UsesShape(raw, types) && |types| < |raw.uses|
    requires Shape(raw.uses[|types|].schema, UseHint(raw, |types|), t)
    ensures UsesShape(raw, types + [t])
  {
  }

  /** The first operations are resolved. */
  ghost predicate OperationsShape(raw: seq<RawOperation>, ops: seq<Operation>) {
    |ops| <= |raw| && forall i :: 0 <= i < |ops| ==> OperationShape(raw[i], ops[i])
  }

  lemma OperationsAppend(raw: seq<RawOperation>, ops: seq<Operation>, op: Operation,
    refs: set<string>, enums: set<string>, refs': set<string>, enums': set<string>)
    requires OperationsShape(raw, ops) && |ops| < |raw| && OperationShape(raw[|ops|], op)
    requires ClosedOperations(ops, refs, enums) && refs <= refs' && enums <= enums'
      && ClosedAll(op.types, refs', enums')
    ensures OperationsShape(raw, ops + [op]) && ClosedOperations(ops + [op], refs', enums')
  {
    ClosedOperationsMonotone(ops, refs, enums, refs', enums');
  }

  /** Every named schema is among these names. */
  ghost predicate AllSettled(names: seq<string>, settled: set<string>) {
    forall i :: 0 <= i < |names| ==> Rename(names[i]) in settled
  }

  lemma AllSettledMonotone(names: seq<string>, settled: set<string>, settled': set<string>)
    requires AllSettled(names, settled) && settled <= settled'
    ensures AllSettled(names, settled')
  {
  }

  lemma OneMoreSettled(names: seq<string>, i: nat, settled: set<string>, settled': set<string>)
    requires i < |names| && AllSettled(names[..i], settled) && settled <= settled' && Rename(names[i]) in settled'
    ensures AllSettled(names[..i + 1], settled')
  {
  }

  ghost predicate ClosedOperations(ops: seq<Operation>, refs: set<string>, enums: set<string>) {
    forall i :: 0 <= i < |ops| ==> ClosedAll(ops[i].types, refs, enums)
  }

  lemma ClosedOperationsMonotone(ops: seq<Operation>, refs: set<string>, enums: set<string>, refs': set<string>,
      enums': set<string>)
    requires ClosedOperations(ops, refs, enums) && refs <= refs' && enums <= enums'
    ensures ClosedOperations(ops, refs', enums')
  {
    forall i | 0 <= i < |ops|
      ensures ClosedAll(ops[i].types, refs', enums')
    {
      ClosedAllMonotone(ops[i].types, refs, enums, refs', enums');
    }
  }

  // ---- the parts of an allOf ---------------------------------------------------------------

  ghost predicate MapShape(schema: Schema, hint: string, items: TypeRef)
    requires schema.Node?
  {
    if HasMapValue(schema) then Shape(schema.additional.value, hint + "Value", items)
    else items == TypeRef(Any, false)
  }

  /** `m` stands for one part: a model registered under the part's target, or the object itself. */
  ghost predicate PartShape(part: Schema, name: string, m: Model, history: set<(string, Model)>) {
    && part.Node?
    && if part.ref.Some? then RefName(part.ref.value).Ok? && (Rename(RefName(part.ref.value).value), m) in history
       else m.name == Rename(name) && ObjectShape(part, m)
  }

  ghost predicate PartsShape(list: seq<Schema>, name: string, parts: seq<Model>, history: set<(string, Model)>) {
    |parts| <= |list| && forall i :: 0 <= i < |parts| ==> PartShape(list[i], name, parts[i], history)
  }

  lemma PartsShapeMonotone(list: seq<Schema>, name: string, parts: seq<Model>, h: set<(string, Model)>,
      h': set<(string, Model)>)
    requires PartsShape(list, name, parts, h) && h <= h'
    ensures PartsShape(list, name, parts, h')
  {
  }

  lemma PartsShapeAppend(list: seq<Schema>, name: string, parts: seq<Model>, m: Model, h: set<(string, Model)>,
      h': set<(string, Model)>)
    requires PartsShape(list, name, parts, h) && h <= h'
    requires |parts| < |list| && PartShape(list[|parts|], name, m, h')
    ensures PartsShape(list, name, parts + [m], h')
  {
    PartsShapeMonotone(list, name, parts, h, h');
  }

  /** `m` is the merge of the parts of `schema`, under `schema`'s own description if it has one. */
  ghost predicate AllOfShape(schema: Schema, name: string, m: Model, history: set<(string, Model)>)
    requires schema.Node? && schema.allOf.Parts?
  {
    exists parts, description ::
      && |parts| == |schema.allOf.list| && PartsShape(schema.allOf.list, name, parts, history)
      && MergedFrom(m.(description := description), parts)
      && m.description == if Description(schema) != "" then Description(schema) else description
  }

  /** `m` is the model of a node: an object, a merge, or that of its only real alternative. */
  ghost predicate Represents(schema: Schema, hint: string, m: Model, history: set<(string, Model)>) {
    if schema.Literal? || IsEmpty(schema) || schema.ref.Some? then false
    else if schema.allOf.Parts? then AllOfShape(schema, hint, m, history)
    else if !IsAlternative(schema) then IsTyped(schema, "object") && Props(schema) != [] && ObjectShape(schema, m)
    else
      && ReadableVariants(schema) && |NonNull(Variants(schema).list)| == 1
      && var only := NonNull(Variants(schema).list)[0];
      assert only in NonNull(Variants(schema).list) && only in Variants(schema).list;
      Represents(only, hint, m, history)
  }

  /** Under each of these names stands what the name was defined as, or it was displaced. */
  ghost predicate AllTraced(names: set<string>, models: map<string, Model>, definitions: map<string, (string, Model)>,
      displaced: set<string>)
  {
    forall n {:trigger n in displaced} :: n in names && n in models && n !in displaced ==>
      n in definitions && definitions[n].1 == models[n]
  }

  /** Every definition is that of a schema of this name, and represents it. */
  ghost predicate AllRepresent(schemas: map<string, Schema>, definitions: map<string, (string, Model)>,
      history: set<(string, Model)>)
  {
    forall n :: IsRepresented(schemas, definitions, history, n)
  }

  ghost predicate IsRepresented(schemas: map<string, Schema>, definitions: map<string, (string, Model)>,
      history: set<(string, Model)>, n: string)
  {
    n in definitions ==>
      && definitions[n].0 in schemas && Rename(definitions[n].0) == n
      && Represents(schemas[definitions[n].0], n, definitions[n].1, history)
  }

  lemma {:induction false} RepresentsMonotone(schema: Schema, hint: string, m: Model, h: set<(string, Model)>,
      h': set<(string, Model)>)
    requires Represents(schema, hint, m, h) && h <= h'
    ensures Represents(schema, hint, m, h')
    decreases schema
  {
    if schema.allOf.Parts? {
      var parts, description :|
        && |parts| == |schema.allOf.list| && PartsShape(schema.allOf.list, hint, parts, h)
        && MergedFrom(m.(description := description), parts)
        && m.description == if Description(schema) != "" then Description(schema) else description;
      PartsShapeMonotone(schema.allOf.list, hint, parts, h, h');
    } else if IsAlternative(schema) {
      var only := NonNull(Variants(schema).list)[0];
      assert only in NonNull(Variants(schema).list) && only in Variants(schema).list;
      RepresentsMonotone(only, hint, m, h, h');
    }
  }

  lemma OneMoreRepresented(schemas: map<string, Schema>, definitions: map<string, (string, Model)>,
      h: set<(string, Model)>, name: string, s: string, m: Model)
    requires s in schemas && Rename(s) == name && Represents(schemas[s], name, m, h)
    ensures AllRepresent(schemas, definitions, h) ==> AllRepresent(schemas, definitions[name := (s, m)], h)
  {
    if AllRepresent(schemas, definitions, h) {
      var more := definitions[name := (s, m)];
      forall n
        ensures IsRepresented(schemas, more, h, n)
      {
        assert IsRepresented(schemas, definitions, h, n);
      }
    }
  }

  lemma AllRepresentMonotone(schemas: map<string, Schema>, definitions: map<string, (string, Model)>,
      h: set<(string, Model)>, h': set<(string, Model)>)
    requires AllRepresent(schemas, definitions, h) && h <= h'
    ensures AllRepresent(schemas, definitions, h')
  {
    forall n
      ensures IsRepresented(schemas, definitions, h', n)
    {
      assert IsRepresented(schemas, definitions, h, n);
      if n in definitions {
        RepresentsMonotone(schemas[definitions[n].0], n, definitions[n].1, h, h');
      }
    }
  }

  lemma FieldsShapeAppend(s: Schema, name: string, fields: seq<Field>, f: Field)
    requires s.Node? && FieldsShape(s, name, fields) && |fields| < |Props(s)|
    requires FieldShape(s, name, Props(s)[|fields|], f)
    ensures FieldsShape(s, name, fields + [f])
  {
  }

  lemma ClosedFieldsAppend(fields: seq<Field>, f: Field, refs: set<string>, enums: set<string>, refs': set<string>,
      enums': set<string>)
    requires ClosedFields(fields, refs, enums) && refs <= refs' && enums <= enums' && Closed(f.typ, refs', enums')
    ensures ClosedFields(fields + [f], refs', enums')
  {
    ClosedFieldsMonotone(fields, refs, enums, refs', enums');
  }

  /** Fold one more part in: its fields replace, its extras only fill gaps. */
  function MergeInto(m: Model, part: Model): Model {
    Model(m.name, PutAll(m.fields, part.fields),
          if m.description != "" then m.description else part.description,
          if m.additional.Some? then m.additional else part.additional)
  }

  lemma MergePart(m: Model, parts: seq<Model>, part: Model)
    requires MergedFrom(m, parts)
    ensures MergedFrom(MergeInto(m, part), parts + [part])
  {
    PutAllIsMerge(AllFields(parts), part.fields);
    assert (parts + [part])[..|parts|] == parts;
  }

  lemma ClosedMerge(m: Model, part: Model, refs: set<string>, enums: set<string>, refs': set<string>,
      enums': set<string>)
    requires ClosedModel(m, refs, enums) && refs <= refs' && enums <= enums'
    requires ClosedModel(part, refs', enums')
    ensures ClosedModel(MergeInto(m, part), refs', enums')
  {
    ClosedModelMonotone(m, refs, enums, refs', enums');
    ClosedPutAll(m.fields, part.fields, refs', enums');
  }

  lemma {:induction false} ClosedPutAll(fields: seq<Field>, more: seq<Field>, refs: set<string>, enums: set<string>)
    requires ClosedFields(fields, refs, enums) && ClosedFields(more, refs, enums)
    ensures ClosedFields(PutAll(fields, more), refs, enums)
    decreases |more|
  {
    if more != [] {
      ClosedPut(fields, more[0], refs, enums);
      ClosedPutAll(Put(fields, more[0]), more[1..], refs, enums);
    }
  }

  lemma {:induction false} ClosedPut(fields: seq<Field>, f: Field, refs: set<string>, enums: set<string>)
    requires ClosedFields(fields, refs, enums) && Closed(f.typ, refs, enums)
    ensures ClosedFields(Put(fields, f), refs, enums)
    decreases |fields|
  {
    if fields != [] {
      ClosedPut(fields[1..], f, refs, enums);
    }
  }

  lemma VariantsAreSmaller(s: Schema)
    requires s.Node? && ReadableVariants(s)
    ensures forall i :: 0 <= i < |NonNull(Variants(s).list)| ==> NonNull(Variants(s).list)[i] < s
  {
    var rest := NonNull(Variants(s).list);
    forall i | 0 <= i < |rest|
      ensures rest[i] < s
    {
      assert rest[i] in rest && rest[i] in Variants(s).list;
    }
  }

  lemma OnlyShape(s: Schema, hint: string, t: TypeRef)
    requires s.Node? && !IsEmpty(s) && s.ref.None? && !s.allOf.Parts? && IsAlternative(s)
    requires ReadableVariants(s) && |NonNull(Variants(s).list)| == 1
    requires Shape(NonNull(Variants(s).list)[0], hint, t)
    ensures Shape(s, hint, t.WithNullable(HasNull(Variants(s).list)))
  {
    var u := t.WithNullable(HasNull(Variants(s).list));
    assert t == u || t == u.(nullable := false);
    assert AlternativeShape(s, hint, u);
  }

  lemma ClosedIgnoresNullable(t: TypeRef, nullable: bool, refs: set<string>, enums: set<string>)
    ensures Closed(t.WithNullable(nullable), refs, enums) == Closed(t, refs, enums)
  {
  }

  ghost predicate VariantsShape(rest: seq<Schema>, hint: string, ts: seq<TypeRef>) {
    |ts| <= |rest| && forall i :: 0 <= i < |ts| ==> Shape(rest[i], VariantHint(hint, i), ts[i])
  }

  lemma VariantsShapeAppend(rest: seq<Schema>, hint: string, ts: seq<TypeRef>, t: TypeRef)
    requires VariantsShape(rest, hint, ts) && |ts| < |rest| && Shape(rest[|ts|], VariantHint(hint, |ts|), t)
    ensures VariantsShape(rest, hint, ts + [t])
  {
  }

  lemma ClosedAllAppend(ts: seq<TypeRef>, t: TypeRef, refs: set<string>, enums: set<string>, refs': set<string>,
      enums': set<string>)
    requires ClosedAll(ts, refs, enums) && refs <= refs' && enums <= enums' && Closed(t, refs', enums')
    ensures ClosedAll(ts + [t], refs', enums')
  {
    ClosedAllMonotone(ts, refs, enums, refs', enums');
  }

  ghost predicate ClosedAll(ts: seq<TypeRef>, refs: set<string>, enums: set<string>) {
    forall i :: 0 <= i < |ts| ==> Closed(ts[i], refs, enums)
  }

  lemma ClosedAllMonotone(ts: seq<TypeRef>, refs: set<string>, enums: set<string>, refs': set<string>,
      enums': set<string>)
    requires ClosedAll(ts, refs, enums) && refs <= refs' && enums <= enums'
    ensures ClosedAll(ts, refs', enums')
  {
    forall i | 0 <= i < |ts|
      ensures Closed(ts[i], refs', enums')
    {
      ClosedMonotone(ts[i], refs, enums, refs', enums');
    }
  }

  function Numbered(name: string, i: nat): string {
    name + Decimal.Print(i)
  }

  /** Numbered names are pairwise different, so a finite set cannot hold all of them. */
  lemma {:induction false} NumberedAreMany(name: string, n: nat, taken: set<string>)
    requires n >= 2 && forall j :: 2 <= j < n ==> Numbered(name, j) in taken
    ensures n - 2 <= |taken|
    decreases n
  {
    if n > 2 {
      var last := Numbered(name, n - 1);
      forall j | 2 <= j < n - 1
        ensures Numbered(name, j) in taken - {last}
      {
        if Numbered(name, j) == last {
          assert Numbered(name, j)[|name|..] == Decimal.Print(j);
          assert last[|name|..] == Decimal.Print(n - 1);
          Decimal.PrintIsInjective(j, n - 1);
        }
      }
      NumberedAreMany(name, n - 1, taken - {last});
    }
  }

  /**
   The failing family at its smallest: a spec whose only schema refers to itself.  Resolving it
   succeeds with a reference to a model that does not exist.
   */
  method SelfAliasDangles() returns (loader: Loader, r: Result<TypeRef, SchemaError>)
    ensures r.Ok? && r.value.kind == Ref("Node") && loader.building == {}
    ensures "Node" !in loader.models && "Node" !in loader.enums
  {
    var schema := EMPTY.(ref := Some(PREFIX + "Node"));
    assert (PREFIX + "Node")[|PREFIX|..] == "Node";
    assert IsSelfAlias("Node", schema);
    loader := new Loader(map["Node" := schema], []);
    r := loader.EnsureNamed("Node");
  }

  // ---- a cyclic spec that loads ------------------------------------------------------------------

  /** A reference to a tree, a list of such, and a tree: an object with a list of children. */
  const TREE_REF: Schema := EMPTY.(ref := Some(PREFIX + "Tree"))

  const TREES: Schema := EMPTY.(typ := One("array"), items := Some(TREE_REF))

  const TREE: Schema :=
    EMPTY.(typ := One("object"), properties := Properties([Property("children", TREES)]))

  lemma TreeIsReadable()
    ensures OwnName(TREE) && Readable(TREE) && RefsFit(TREE, {"Tree"}, {}) && AliasTarget(TREE) == None
  {
    assert (PREFIX + "Tree")[|PREFIX|..] == "Tree";
    assert RefName(PREFIX + "Tree") == Ok("Tree");
    assert Readable(TREE_REF) && RefsFit(TREE_REF, {"Tree"}, {});
    assert HasType(TREES, "array") && HasType(TREE, "object");
    OneType(TREES, "array");
    OneType(TREE, "object");
    assert ReadableTyped(TREES);
    assert Readable(TREES) && RefsFit(TREES, {"Tree"}, {});
    assert Props(TREE) == [Property("children", TREES)];
    assert ReadableInside(TREE) && RefsFitInside(TREE, {"Tree"}, {});
    assert ReadableTyped(TREE);
  }

  lemma TreeIsLoadable(loader: Loader)
    requires loader.schemas == map["Tree" := TREE] && loader.operations == []
    ensures loader.IsLoadable()
  {
    var levels := map["Tree" := 0];
    TreeIsReadable();
    assert Rename("Tree") == "Tree";
    assert loader.Upto(levels, 0) == {"Tree"};
    RefsFitMonotone(TREE, {"Tree"}, {}, {"Tree"}, loader.Below(levels, 0));
    assert loader.CanBeDefined("Tree", levels);
    assert loader.Ranks(levels);
  }

  /** A schema that refers to itself in a list loads, and has a model. */
  method TreeLoads() returns (loader: Loader, r: Result<seq<Operation>, SchemaError>)
    ensures loader.schemas == map["Tree" := TREE] && r.Ok? && "Tree" in loader.Settled()
  {
    loader := new Loader(map["Tree" := TREE], []);
    TreeIsLoadable(loader);
    r := loader.Load(["Tree"]);
    assert Rename(["Tree"][0]) == "Tree";
  }

  // ---- a displaced model ---------------------------------------------------------------------

  /** An object with one text property. */
  function TextObject(property: string): (s: Schema)
    ensures s.Node? && !IsEmpty(s)
  {
    EMPTY.(typ := One("object"), properties := Properties([Property(property, EMPTY.(typ := One("string")))]))
  }

  /** The merge of one such object. */
  function TextMerge(property: string): (s: Schema)
    ensures s.Node? && !IsEmpty(s) && s.allOf.Parts?
  {
    EMPTY.(allOf := Parts([TextObject(property)]))
  }

  lemma TextsAreSelfContained(property: string)
    ensures IsSelfContained(TextObject(property)) && IsSelfContained(TextMerge(property))
  {
    var text := EMPTY.(typ := One("string"));
    var whole := TextObject(property);
    assert HasType(text, "string") && ReadableTyped(text);
    assert Readable(text);
    assert Props(whole) == [Property(property, text)];
    OneType(text, "string");
    assert RefsFit(text, {}, {});
    assert HasType(whole, "object");
    OneType(whole, "object");
    assert ReadableInside(whole) && RefsFitInside(whole, {}, {});
    assert ReadablePart(whole) && PartFits(whole, {}, {});
  }

  lemma ObjectHasField(property: string, m: Model)
    requires ObjectShape(TextObject(property), m)
    ensures Names(m.fields) == [property]
  {
    assert Props(TextObject(property)) == [Property(property, EMPTY.(typ := One("string")))];
    assert FieldShape(TextObject(property), m.name, Props(TextObject(property))[0], m.fields[0]);
  }

  lemma OnePartNames(parts: seq<Model>)
    requires |parts| == 1
    ensures Names(AllFields(parts)) == Names(parts[0].fields)
  {
    assert parts[..0] == [];
    assert AllFields(parts) == parts[0].fields;
  }

  lemma OnePartMerge(m: Model, parts: seq<Model>, property: string)
    requires MergedFrom(m, parts) && |parts| == 1 && Names(parts[0].fields) == [property]
    ensures Names(m.fields) == [property]
  {
    OnePartNames(parts);
    MergedModelFields(m, parts);
    assert [property][..0] == [];
  }

  lemma MergeHasField(property: string, name: string, m: Model, history: set<(string, Model)>)
    requires AllOfShape(TextMerge(property), name, m, history)
    ensures Names(m.fields) == [property]
  {
    var s := TextMerge(property);
    var parts, description :|
      && |parts| == |s.allOf.list| && PartsShape(s.allOf.list, name, parts, history)
      && MergedFrom(m.(description := description), parts)
      && m.description == if Description(s) != "" then Description(s) else description;
    assert PartShape(TextObject(property), name, parts[0], history);
    ObjectHasField(property, parts[0]);
    OnePartMerge(m.(description := description), parts, property);
  }

  lemma MergeIsNotObject(x: string, y: string, name: string, m: Model, history: set<(string, Model)>)
    requires x != y && Represents(TextMerge(y), name, m, history)
    ensures !Represents(TextObject(x), name, m, history)
  {
    MergeHasField(y, name, m, history);
    if Represents(TextObject(x), name, m, history) {
      ObjectHasField(x, m);
    }
  }

  lemma FooBarHint(schema: Schema)
    ensures UseHint(RawOperation("foo", [Use("Bar", schema)]), 0) == "FooBar"
  {
    assert "foo"[1..] == "oo" && "oo"[1..] == "o" && "o"[1..] == "";
    assert PascalFrom("o", false) == "o" && PascalFrom("oo", false) == "oo";
    assert Pascal("foo") == "Foo";
  }

  lemma MergeIsNoAlias(property: string, name: string)
    ensures !IsAliasTo(TextMerge(property), name)
  {
  }

  /** A merge resolved under the name of an object takes its place. */
  method ResolveMerge(loader: Loader, name: string, x: string, y: string) returns (r: Result<TypeRef, SchemaError>)
    requires loader.Valid() && x != y && Rename(name) == name && loader.schemas == map[name := TextObject(x)]
    modifies loader
    ensures r.Ok? && name in loader.models && !loader.StandsFor(name)
  {
    TextsAreSelfContained(y);
    r := loader.Resolve(TextMerge(y), name);
    MergeIsNoAlias(y, name);
    MergeIsNotObject(x, y, name, loader.models[name], loader.history);
    NoOtherName(loader.schemas, name);
  }

  lemma NoOtherName(schemas: map<string, Schema>, name: string)
    requires schemas.Keys == {name}
    ensures forall s :: s in schemas ==> s == name
  {
  }

  /**
   Why names that inline schemas may be registered under are left out: a named object and an operation whose
   hint for an inline merge is its name.  Both resolve, and the merge takes the object's place.
   */
  method InlineMergeDisplaces()
    returns (loader: Loader, named: Result<TypeRef, SchemaError>, inline: Result<TypeRef, SchemaError>)
    ensures named.Ok? && inline.Ok? && loader.schemas == map["FooBar" := TextObject("x")]
    ensures loader.operations == [RawOperation("foo", [Use("Bar", TextMerge("y"))])]
      && UseHint(loader.operations[0], 0) == "FooBar"
    ensures "FooBar" in loader.models && !loader.StandsFor("FooBar")
  {
    var op := RawOperation("foo", [Use("Bar", TextMerge("y"))]);
    FooBarHint(TextMerge("y"));
    loader := new Loader(map["FooBar" := TextObject("x")], [op]);
    TextsAreSelfContained("x");
    named := loader.EnsureNamed("FooBar");
    assert "x"[0] != "y"[0];
    inline := ResolveMerge(loader, "FooBar", "x", "y");
  }

  // ---- a displaced enum ------------------------------------------------------------------------

  /** A text with these values. */
  function TextEnum(values: seq<string>): (s: Schema)
    requires |values| > 1
    ensures IsStringEnum(s) && Readable(s) && RefFree(s) && EnumValues(s) == Some(values)
  {
    EMPTY.(typ := One("string"), values := Some(values))
  }

  /** A named enum and then an inline one of other values under its name: both resolve, the second stays. */
  method ResolveBothEnums(loader: Loader, name: string, values: seq<string>, others: seq<string>)
    returns (named: Result<TypeRef, SchemaError>, inline: Result<TypeRef, SchemaError>)
    requires loader.Valid() && |values| > 1 && |others| > 1 && Rename(name) == name
    requires loader.schemas == map[name := TextEnum(values)]
    requires loader.models == map[] && loader.enums == map[] && loader.building == {}
    modifies loader
    ensures named.Ok? && named.value.kind == EnumRef(name) && inline.Ok? && inline.value.kind == EnumRef(name)
    ensures loader.HasValues(name, others)
  {
    named := loader.EnsureNamed(name);
    assert loader.enums.Keys == {name};
    inline := loader.Resolve(TextEnum(others), name);
  }

  /**
   The same for enums: a named enum and an operation with an inline enum of other values whose hint
   is its name.  Both resolve to the name, which then has the inline values.
   */
  method InlineEnumDisplaces()
    returns (loader: Loader, named: Result<TypeRef, SchemaError>, inline: Result<TypeRef, SchemaError>)
    ensures loader.schemas == map["FooBar" := TextEnum(["a", "b"])]
    ensures loader.operations == [RawOperation("foo", [Use("Bar", TextEnum(["c", "d"]))])]
    ensures UseHint(loader.operations[0], 0) == "FooBar"
    ensures named.Ok? && named.value.kind == EnumRef("FooBar") && inline.Ok? && inline.value.kind == EnumRef("FooBar")
    ensures loader.HasValues("FooBar", ["c", "d"]) && !loader.HasValues("FooBar", ["a", "b"])
  {
    var op := RawOperation("foo", [Use("Bar", TextEnum(["c", "d"]))]);
    FooBarHint(TextEnum(["c", "d"]));
    loader := new Loader(map["FooBar" := TextEnum(["a", "b"])], [op]);
    named, inline := ResolveBothEnums(loader, "FooBar", ["a", "b"], ["c", "d"]);
    assert ["c", "d"][0][0] != ["a", "b"][0][0];
  }
}
