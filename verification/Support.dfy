/**
 Which schema nodes the loader can resolve, said about the nodes alone: what is `Readable`, and which
 names its references may go to.
 */
module Support {
  import opened Wrappers
  import opened Schema
  import Decimal

  /** No keyword but the annotations. */
  predicate JustAnnotated(s: Schema)
    requires s.Node?
  {
    && s.ref.None? && s.allOf.NoParts? && s.oneOf.NoParts? && s.anyOf.NoParts? && s.typ.NoType?
    && s.values.None? && s.properties.NoProperties? && s.required.None? && s.additional.None?
    && s.items.None? && s.format.None?
    && forall k :: k in s.otherKeys ==> k == "example" || k == "default" || k == "deprecated"
  }

  /** The type keyword is this name, or a list of it and any number of "null"; an untyped node may be an object. */
  ghost predicate HasType(s: Schema, name: string)
    requires s.Node?
  {
    match s.typ
    case One(n) => n == name
    case Many(names) => name != "null" && exists i: nat :: IsOnlyReal(names, i) && names[i] == name
    case NoType => name == "object" && s.properties.Properties?
  }

  ghost predicate IsOnlyReal(names: seq<string>, i: nat) {
    i < |names| && names[i] != "null" && forall j :: 0 <= j < |names| && j != i ==> names[j] == "null"
  }

  /** A node that can be resolved once its references can. */
  ghost predicate Readable(s: Schema)
    decreases s, 2
  {
    if s.Literal? then s.value
    else if IsEmpty(s) then true
    else if s.ref.Some? then RefName(s.ref.value).Ok?
    else if s.allOf.Parts? then forall part :: part in s.allOf.list ==> ReadablePart(part)
    else if IsAlternative(s) then
      ReadableVariants(s) && forall v :: v in Variants(s).list && v.typ != One("null") ==> Readable(v)
    else ReadableTyped(s)
  }

  ghost predicate ReadableTyped(s: Schema)
    requires s.Node?
    decreases s, 1
  {
    || JustAnnotated(s)
    || HasType(s, "string") || HasType(s, "integer") || HasType(s, "number") || HasType(s, "boolean")
    || (HasType(s, "array") && (s.items.Some? ==> Readable(s.items.value)))
    || (HasType(s, "object") && ReadableInside(s))
  }

  ghost predicate ReadablePart(part: Schema)
    decreases part, 1
  {
    part.Node? && if part.ref.Some? then RefName(part.ref.value).Ok? else ReadableInside(part)
  }

  /** The same for the properties of an object and what else it may hold. */
  ghost predicate ReadableInside(s: Schema)
    requires s.Node?
    decreases s, 0
  {
    && (forall p :: p in Props(s) ==> Readable(p.schema))
    && (HasMapValue(s) ==> Readable(s.additional.value))
  }

  ghost predicate AllReadable(list: seq<Schema>) {
    forall v :: v in list ==> Readable(v)
  }

  ghost predicate AllPartsRead(list: seq<Schema>) {
    forall part :: part in list ==> ReadablePart(part)
  }

  /** The first properties are readable. */
  ghost predicate PropertiesRead(s: Schema, n: nat)
    requires s.Node? && n <= |Props(s)|
  {
    forall i :: 0 <= i < n ==> Readable(Props(s)[i].schema)
  }

  lemma AllReadableAppend(list: seq<Schema>, i: nat)
    requires i < |list| && AllReadable(list[..i]) && Readable(list[i])
    ensures AllReadable(list[..i + 1])
  {
    assert list[..i + 1] == list[..i] + [list[i]];
  }

  lemma AllPartsReadAppend(list: seq<Schema>, i: nat)
    requires i < |list| && AllPartsRead(list[..i]) && ReadablePart(list[i])
    ensures AllPartsRead(list[..i + 1])
  {
    assert list[..i + 1] == list[..i] + [list[i]];
  }

  lemma PropertiesReadAppend(s: Schema, i: nat)
    requires s.Node? && i < |Props(s)| && PropertiesRead(s, i) && Readable(Props(s)[i].schema)
    ensures PropertiesRead(s, i + 1)
  {
  }

  /** Every reference in a node goes to one of `refs`, and every part of a merge to one of `parts`. */
  ghost predicate RefsFit(s: Schema, refs: set<string>, parts: set<string>)
    decreases s, 1
  {
    if s.Literal? || IsEmpty(s) then true
    else if s.ref.Some? then RefName(s.ref.value).Ok? ==> RefName(s.ref.value).value in refs
    else if s.allOf.Parts? then forall part :: part in s.allOf.list ==> PartFits(part, refs, parts)
    else if IsAlternative(s) then
      ReadableVariants(s) ==> forall v :: v in Variants(s).list && v.typ != One("null") ==> RefsFit(v, refs, parts)
    else
      && (HasType(s, "array") && s.items.Some? ==> RefsFit(s.items.value, refs, parts))
      && (HasType(s, "object") ==> RefsFitInside(s, refs, parts))
  }

  ghost predicate PartFits(part: Schema, refs: set<string>, parts: set<string>)
    decreases part, 1
  {
    part.Node? ==>
      if part.ref.None? then RefsFitInside(part, refs, parts)
      else RefName(part.ref.value).Ok? ==> RefName(part.ref.value).value in parts
  }

  ghost predicate AllFit(list: seq<Schema>, refs: set<string>, parts: set<string>) {
    forall v :: v in list ==> RefsFit(v, refs, parts)
  }

  ghost predicate RefsFitInside(s: Schema, refs: set<string>, parts: set<string>)
    requires s.Node?
    decreases s, 0
  {
    && (forall p :: p in Props(s) ==> RefsFit(p.schema, refs, parts))
    && (HasMapValue(s) ==> RefsFit(s.additional.value, refs, parts))
  }

  /** A node without references. */
  ghost predicate RefFree(s: Schema) {
    RefsFit(s, {}, {})
  }

  /** A schema that becomes a model under its hint: a merge, an object, or that as the only real alternative. */
  ghost predicate OwnName(s: Schema) {
    && s.Node? && !IsEmpty(s) && s.ref.None?
    && if s.allOf.Parts? then true
       else if IsAlternative(s) then
         && ReadableVariants(s) && |NonNull(Variants(s).list)| == 1
         && var only := NonNull(Variants(s).list)[0];
         assert only in NonNull(Variants(s).list) && only in Variants(s).list;
         OwnName(only)
       else HasType(s, "object") && Props(s) != []
  }

  // ---- types -------------------------------------------------------------------------------

  lemma {:induction false} WithoutNullAt(names: seq<string>, i: nat)
    requires IsOnlyReal(names, i)
    ensures WithoutNull(names) == [names[i]]
  {
    if i > 0 {
      WithoutNullAt(names[1..], i - 1);
    } else {
      WithoutNullOfNulls(names[1..]);
    }
  }

  lemma {:induction false} WithoutNullOfNulls(names: seq<string>)
    requires forall i :: 0 <= i < |names| ==> names[i] == "null"
    ensures WithoutNull(names) == []
  {
    if names != [] {
      WithoutNullOfNulls(names[1..]);
    }
  }

  lemma {:induction false} OnlyRealOf(names: seq<string>) returns (i: nat)
    requires |WithoutNull(names)| == 1
    ensures IsOnlyReal(names, i)
  {
    if names[0] == "null" {
      var k := OnlyRealOf(names[1..]);
      assert forall j :: 0 < j < |names| ==> names[j] == names[1..][j - 1];
      i := k + 1;
    } else {
      NoneIsReal(names[1..]);
      i := 0;
    }
  }

  lemma {:induction false} NoneIsReal(names: seq<string>)
    requires WithoutNull(names) == []
    ensures forall i :: 0 <= i < |names| ==> names[i] == "null"
  {
    if names != [] {
      NoneIsReal(names[1..]);
    }
  }

  /** Which type a node has, and that a list of types makes it nullable exactly if it holds "null". */
  lemma TypeNameMeans(s: Schema, name: string)
    requires s.Node?
    ensures TypeName(s).Ok? && TypeName(s).value.0 == name && !(s.typ.NoType? && name == "any") <==>
      HasType(s, name) && !JustAnnotated(s)
    ensures TypeName(s).Ok? ==> TypeName(s).value.1 == (s.typ.Many? && "null" in s.typ.names)
    ensures JustAnnotated(s) ==> TypeName(s) == Ok(("any", false))
    ensures s.typ.NoType? && TypeName(s).Ok? && TypeName(s).value.0 == "any" ==> JustAnnotated(s)
  {
    if s.typ.Many? {
      if |WithoutNull(s.typ.names)| == 1 {
        var i := OnlyRealOf(s.typ.names);
        WithoutNullAt(s.typ.names, i);
      } else {
        forall i: nat | IsOnlyReal(s.typ.names, i)
          ensures false
        {
          WithoutNullAt(s.typ.names, i);
        }
      }
    } else {
      AnnotationsMean(s);
    }
  }

  lemma AnnotationsMean(s: Schema)
    requires s.Node? && !s.typ.Many?
    ensures s.typ.NoType? && AnnotationOnly(s) <==> JustAnnotated(s)
  {
  }

  /** A node that is resolved by its type. */
  predicate IsTyped(s: Schema, name: string) {
    && s.Node? && !IsEmpty(s) && s.ref.None? && !s.allOf.Parts? && !IsAlternative(s)
    && TypeName(s).Ok? && TypeName(s).value.0 == name
  }

  // ---- from a node to the nodes inside -------------------------------------------------------

  lemma ScalarIsReadable(s: Schema, name: string)
    requires IsTyped(s, name) && name in {"string", "integer", "number", "boolean"}
    ensures Readable(s)
  {
    TypeNameMeans(s, name);
  }

  lemma ArrayReads(s: Schema)
    requires IsTyped(s, "array")
    ensures Readable(s) <==> (s.items.Some? ==> Readable(s.items.value))
  {
    TypeNameMeans(s, "array");
    OneType(s, "array");
  }

  lemma ArrayFits(s: Schema, refs: set<string>, parts: set<string>)
    requires IsTyped(s, "array") && s.items.Some?
    ensures RefsFit(s, refs, parts) <==> RefsFit(s.items.value, refs, parts)
  {
    TypeNameMeans(s, "array");
    OneType(s, "array");
  }

  lemma ObjectReads(s: Schema)
    requires IsTyped(s, "object")
    ensures Readable(s) <==> ReadableInside(s)
  {
    TypeNameMeans(s, "object");
    OneType(s, "object");
  }

  lemma ObjectFits(s: Schema, refs: set<string>, parts: set<string>)
    requires IsTyped(s, "object")
    ensures RefsFit(s, refs, parts) <==> RefsFitInside(s, refs, parts)
  {
    TypeNameMeans(s, "object");
    OneType(s, "object");
  }

  /** A node has at most one type. */
  lemma OneType(s: Schema, name: string)
    requires s.Node? && HasType(s, name)
    ensures forall other :: HasType(s, other) ==> other == name
  {
  }

  lemma AnnotatedIsReadable(s: Schema)
    requires s.Node? && s.typ.NoType? && TypeName(s).Ok? && TypeName(s).value.0 == "any"
    ensures Readable(s)
  {
    TypeNameMeans(s, "any");
  }

  /** Nothing else is readable. */
  lemma UnknownTypeIsNotReadable(s: Schema)
    requires s.Node? && !IsEmpty(s) && s.ref.None? && !s.allOf.Parts? && !IsAlternative(s)
    requires TypeName(s).Ok? ==> !(s.typ.NoType? && TypeName(s).value.0 == "any")
    requires TypeName(s).Ok? ==> TypeName(s).value.0 !in {"string", "integer", "number", "boolean", "array", "object"}
    ensures !Readable(s)
  {
    TypeNameMeans(s, "string");
    TypeNameMeans(s, "integer");
    TypeNameMeans(s, "number");
    TypeNameMeans(s, "boolean");
    TypeNameMeans(s, "array");
    TypeNameMeans(s, "object");
  }

  lemma TypedIsNotOwn(s: Schema, name: string)
    requires IsTyped(s, name)
    ensures OwnName(s) ==> name == "object" && Props(s) != []
  {
    TypeNameMeans(s, name);
    if OwnName(s) {
      OneType(s, "object");
      TypeNameMeans(s, "object");
    }
  }

  lemma AlternativesRead(s: Schema)
    requires s.Node? && s.ref.None? && !s.allOf.Parts? && IsAlternative(s) && ReadableVariants(s)
    ensures Readable(s) <==> AllReadable(NonNull(Variants(s).list))
  {
  }

  lemma AlternativesFit(s: Schema, refs: set<string>, parts: set<string>)
    requires s.Node? && s.ref.None? && !s.allOf.Parts? && IsAlternative(s) && ReadableVariants(s)
    ensures RefsFit(s, refs, parts) <==> AllFit(NonNull(Variants(s).list), refs, parts)
  {
  }

  lemma {:induction false} RefsFitMonotone(s: Schema, refs: set<string>, parts: set<string>,
      refs': set<string>, parts': set<string>)
    requires RefsFit(s, refs, parts) && refs <= refs' && parts <= parts'
    ensures RefsFit(s, refs', parts')
    decreases s, 1
  {
    if s.Literal? || IsEmpty(s) || s.ref.Some? {
    } else if s.allOf.Parts? {
      forall part | part in s.allOf.list
        ensures PartFits(part, refs', parts')
      {
        assert PartFits(part, refs, parts);
        if part.Node? && part.ref.None? {
          RefsFitInsideMonotone(part, refs, parts, refs', parts');
        }
      }
    } else if IsAlternative(s) {
      if ReadableVariants(s) {
        forall v | v in Variants(s).list && !IsNullType(v)
          ensures RefsFit(v, refs', parts')
        {
          RefsFitMonotone(v, refs, parts, refs', parts');
        }
      }
    } else {
      if HasType(s, "array") && s.items.Some? {
        RefsFitMonotone(s.items.value, refs, parts, refs', parts');
      }
      if HasType(s, "object") {
        RefsFitInsideMonotone(s, refs, parts, refs', parts');
      }
    }
  }

  lemma {:induction false} RefsFitInsideMonotone(s: Schema, refs: set<string>, parts: set<string>,
      refs': set<string>, parts': set<string>)
    requires s.Node? && RefsFitInside(s, refs, parts) && refs <= refs' && parts <= parts'
    ensures RefsFitInside(s, refs', parts')
    decreases s, 0
  {
    forall p | p in Props(s)
      ensures RefsFit(p.schema, refs', parts')
    {
      RefsFitMonotone(p.schema, refs, parts, refs', parts');
    }
    if HasMapValue(s) {
      RefsFitMonotone(s.additional.value, refs, parts, refs', parts');
    }
  }

  /** What becomes a model is a reference. */
  lemma {:induction false} OwnNameIsRef(s: Schema, hint: string, t: TypeRef)
    requires OwnName(s) && Shape(s, hint, t)
    ensures t.kind.Ref?
    decreases s
  {
    if s.allOf.Parts? {
    } else if IsAlternative(s) {
      var only := NonNull(Variants(s).list)[0];
      assert only in NonNull(Variants(s).list) && only in Variants(s).list;
      if Shape(only, hint, t) {
        OwnNameIsRef(only, hint, t);
      } else {
        OwnNameIsRef(only, hint, t.(nullable := false));
      }
    } else {
      TypeNameMeans(s, "object");
    }
  }

  // ---- names -----------------------------------------------------------------------------------

  /** Words run together in capitals: a separator is dropped and the letter after it is capitalised. */
  lemma {:induction false} PascalOfWord(word: string, rest: string, wordStart: bool)
    requires word != "" && forall i :: 0 <= i < |word| ==> IsAlphanumeric(word[i])
    ensures PascalFrom(word + rest, wordStart)
      == [if wordStart then Upper(word[0]) else word[0]] + word[1..] + PascalFrom(rest, false)
    decreases |word|
  {
    var s := word + rest;
    assert s[0] == word[0] && s[1..] == word[1..] + rest;
    if |word| == 1 {
      assert word[1..] == "" && "" + rest == rest;
      assert PascalFrom(s, wordStart) == [if wordStart then Upper(word[0]) else word[0]] + PascalFrom(rest, false);
    } else {
      PascalOfWord(word[1..], rest, false);
      assert [word[1]] + word[1..][1..] == word[1..];
    }
  }

  /** A name of words with separators between them: `first` up to the first separator, then the others. */
  lemma PascalSplits(word: string, separator: char, rest: string)
    requires word != "" && (forall i :: 0 <= i < |word| ==> IsAlphanumeric(word[i])) && !IsAlphanumeric(separator)
    ensures Pascal(word + [separator] + rest) == [Upper(word[0])] + word[1..] + Pascal(rest)
  {
    assert word + [separator] + rest == word + ([separator] + rest);
    PascalOfWord(word, [separator] + rest, true);
    assert ([separator] + rest)[1..] == rest;
  }

  /** The names that references and the two renamed schemas have. */
  lemma KnownNames(name: string)
    ensures RefName("#/components/schemas/" + name) == Ok(name)
    ensures Rename("Error") == "ErrorEnvelope" && Rename("ErrorEnvelopeError") == "ErrorDetail"
    ensures name != "Error" && name != "ErrorEnvelopeError" ==> Rename(name) == name
    ensures VariantHint(name, 0) == name + "Variant0"
  {
    assert ("#/components/schemas/" + name)[|PREFIX|..] == name;
    assert Decimal.Print(0) == "0";
  }

  // ---- what the shapes are ---------------------------------------------------------------------

  /** A list of types makes a node nullable if it holds "null". */
  predicate Nulls(s: Schema)
    requires s.Node?
  {
    s.typ.Many? && "null" in s.typ.names
  }

  /** A node without `$ref`, `allOf`, `oneOf` and `anyOf` that is more than annotations. */
  ghost predicate IsOfType(s: Schema, name: string) {
    && s.Node? && s.ref.None? && s.allOf.NoParts? && s.oneOf.NoParts? && s.anyOf.NoParts?
    && HasType(s, name) && !JustAnnotated(s)
  }

  lemma IsOfTypeMeans(s: Schema, name: string)
    requires IsOfType(s, name)
    ensures IsTyped(s, name) && TypeName(s) == Ok((name, Nulls(s))) && !(s.typ.NoType? && name == "any")
  {
    TypeNameMeans(s, name);
    EmptyIsAnnotated();
  }

  lemma EmptyIsAnnotated()
    ensures JustAnnotated(EMPTY)
  {
  }

  /** A text is an enum exactly if it lists at least two values. */
  lemma ShapeOfText(s: Schema, hint: string, t: TypeRef)
    requires IsOfType(s, "string")
    ensures Shape(s, hint, t) <==>
      && t.nullable == Nulls(s)
      && if s.values.Some? && |s.values.value| >= 2 then t.kind.EnumRef? else t.kind == Text(s.format)
  {
    IsOfTypeMeans(s, "string");
  }

  lemma ShapeOfScalar(s: Schema, name: string, hint: string, t: TypeRef)
    requires name in {"integer", "number", "boolean"} && IsOfType(s, name)
    ensures Shape(s, hint, t) <==> t == TypeRef(Scalar(name, s.format), Nulls(s))
  {
    IsOfTypeMeans(s, name);
  }

  lemma ShapeOfArray(s: Schema, hint: string, t: TypeRef)
    requires IsOfType(s, "array")
    ensures Shape(s, hint, t) <==>
      && t.nullable == Nulls(s) && t.kind.Array?
      && if s.items.Some? then Shape(s.items.value, hint + "Item", t.kind.items)
         else t.kind.items == TypeRef(Any, false)
  {
    IsOfTypeMeans(s, "array");
  }

  /** An object is a model exactly if it has properties, and otherwise a map. */
  lemma ShapeOfObject(s: Schema, hint: string, t: TypeRef)
    requires IsOfType(s, "object")
    ensures Shape(s, hint, t) <==>
      && t.nullable == Nulls(s)
      && if s.properties.Properties? && s.properties.list != [] then t.kind.Ref?
         else if s.additional.Some? && s.additional.value.Node? && s.additional.value != EMPTY then
           t.kind.Map? && Shape(s.additional.value, hint + "Value", t.kind.items)
         else t.kind == Map(TypeRef(Any, false))
  {
    IsOfTypeMeans(s, "object");
  }

  /** The alternatives that count, in order: those of `oneOf`, or of `anyOf` if there are none, without "null". */
  lemma AlternativesAre(s: Schema, a: seq<Schema>, b: seq<Schema>)
    requires s.Node?
    ensures Variants(s) == if s.oneOf.Parts? && |s.oneOf.list| > 0 then s.oneOf else s.anyOf
    ensures (forall v :: v in a + b ==> v.Node?) ==>
      && NonNull([]) == []
      && NonNull(a + b) == NonNull(a) + NonNull(b)
      && (|a| == 1 ==> NonNull(a) == if a[0].typ == One("null") then [] else a)
  {
    if forall v :: v in a + b ==> v.Node? {
      assert forall v :: v in a ==> v in a + b;
      assert forall v :: v in b ==> v in a + b;
      NonNullAppend(a, b);
    }
  }

  lemma {:induction false} NonNullAppend(a: seq<Schema>, b: seq<Schema>)
    requires (forall v :: v in a ==> v.Node?) && (forall v :: v in b ==> v.Node?)
    ensures forall v :: v in a + b ==> v.Node?
    ensures NonNull(a + b) == NonNull(a) + NonNull(b)
    decreases |a|
  {
    if a == [] {
      assert a + b == b;
    } else {
      assert (a + b)[1..] == a[1..] + b;
      NonNullAppend(a[1..], b);
    }
  }
}
