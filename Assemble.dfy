/**
 * GetPropertySearchInfo and the pure part of GenerateDataMdm: one EntityMetadata per
 * model class that carries an EntityIndexAttribute, in discovery order
 * (DataGen.cs:343-383, 519-530; MdmGen.cs:315-350, 455-466).
 */
module Assemble {
  import opened Wrappers
  import opened Metadata
  import opened Reconcile
  import opened Partition
  import opened Fold

  /** The EntityIndexAttribute of a model class. */
  datatype EntityIndexAttribute = EntityIndexAttribute(index: int, visible: bool, pathName: string, kind: int)

  /**
   * A class of the model namespace: its name, its EntityIndexAttributes (none or
   * more), the groups of its EntityGroupMenuAttributes and its indexed properties.
   */
  datatype ModelType = ModelType(
    name: string, entityIndexes: seq<EntityIndexAttribute>, menus: seq<MenuGroup>, fields: seq<ModelField>)

  /**
   * The input classes, by the entity index their EntityIndexAttribute carries: the
   * answer of GetEntityType, with a missing key standing for `null`.
   */
  type InputTypes = map<int, seq<InputField>>

  /**
   * The fields of `t`: none without an EntityIndexAttribute or without an input class
   * for its index, otherwise the reconciliation of model and input fields.
   */
  function GetPropertySearchInfo(t: ModelType, inputTypes: InputTypes, docs: Documentation, codes: KindCodes)
    : seq<PropertySearchInfo>
  {
    if t.entityIndexes == [] then []
    else
      var entity := t.entityIndexes[0].index;
      if entity !in inputTypes then []
      else Reconciled(t.fields, inputTypes[entity], entity, docs, codes)
  }

  /** `propInfos.Any(a => a.AutoNumeric)`. */
  predicate AnyAutoNumeric(props: seq<PropertySearchInfo>) {
    exists i | 0 <= i < |props| :: props[i].autoNumeric
  }

  /** `modelTypes.Where(s => s has an EntityIndexAttribute)`, in discovery order. */
  function Exported(types: seq<ModelType>): seq<ModelType> {
    if types == [] then []
    else (if types[0].entityIndexes != [] then [types[0]] else []) + Exported(types[1..])
  }

  /**
   * The EntityMetadata of one exported class: GetModel over its fields, then the
   * header fields GenerateDataMdm overwrites.
   */
  function EntityOf(t: ModelType, inputTypes: InputTypes, docs: Documentation, codes: KindCodes)
    : Result<EntityMetadata, Error>
    requires t.entityIndexes != []
  {
    var header := t.entityIndexes[0];
    var props := GetPropertySearchInfo(t, inputTypes, docs, codes);
    var model :- Folded(props, docs, header.index, codes);
    Ok(model.(visible := header.visible, pathName := header.pathName, entityKind := header.kind,
              className := t.name, autoNumeric := AnyAutoNumeric(props), menus := t.menus))
  }

  /** The EntityMetadata (or the exception) of every class of `types`, in order. */
  function Outcomes(types: seq<ModelType>, inputTypes: InputTypes, docs: Documentation, codes: KindCodes)
    : (rs: seq<Result<EntityMetadata, Error>>)
    requires forall i | 0 <= i < |types| :: types[i].entityIndexes != []
    ensures |rs| == |types|
  {
    seq(|types|, i requires 0 <= i < |types| => EntityOf(types[i], inputTypes, docs, codes))
  }

  /** `Select(...).ToList()`: all the entities in order; the first failing one decides the error. */
  function Collect(rs: seq<Result<EntityMetadata, Error>>): Result<seq<EntityMetadata>, Error> {
    if rs == [] then Ok([])
    else
      var first :- rs[0];
      var rest :- Collect(rs[1..]);
      Ok([first] + rest)
  }

  /** The ModelMetaData document GenerateDataMdm serializes. */
  function GenerateDataMdm(types: seq<ModelType>, inputTypes: InputTypes, docs: Documentation, codes: KindCodes)
    : Result<ModelMetaData, Error>
  {
    ExportedHaveIndex(types);
    var entities :- Collect(Outcomes(Exported(types), inputTypes, docs, codes));
    Ok(ModelMetaData(entities))
  }

  // ---- properties of the assembly ----

  /** Exactly the classes with an EntityIndexAttribute are exported, in discovery order. */
  lemma {:induction false} ExportedHaveIndex(types: seq<ModelType>)
    ensures forall i | 0 <= i < |Exported(types)| :: Exported(types)[i].entityIndexes != [] && Exported(types)[i] in types
    ensures forall i | 0 <= i < |types| && types[i].entityIndexes != [] :: types[i] in Exported(types)
  {
    if types != [] {
      ExportedHaveIndex(types[1..]);
      forall i | 1 <= i < |types| ensures types[i] == types[1..][i - 1] { }
    }
  }

  lemma {:induction false} ExportedAppend(a: seq<ModelType>, b: seq<ModelType>)
    ensures Exported(a + b) == Exported(a) + Exported(b)
  {
    if a == [] {
      assert a + b == b;
    } else {
      assert (a + b)[1..] == a[1..] + b;
      ExportedAppend(a[1..], b);
    }
  }

  /**
   * The fields of a class are empty exactly when it has no EntityIndexAttribute, no
   * input class, or neither model nor input fields.
   */
  lemma PropertySearchInfoEmpty(t: ModelType, inputTypes: InputTypes, docs: Documentation, codes: KindCodes)
    ensures GetPropertySearchInfo(t, inputTypes, docs, codes) == [] <==>
      || t.entityIndexes == []
      || t.entityIndexes[0].index !in inputTypes
      || (t.fields == [] && inputTypes[t.entityIndexes[0].index] == [])
  {
    if t.entityIndexes != [] && t.entityIndexes[0].index in inputTypes {
      var entity := t.entityIndexes[0].index;
      var inputs := inputTypes[entity];
      if t.fields == [] && inputs != [] {
        var props := ModelEntries(t.fields, inputs, entity, docs, codes);
        assert props == [];
        InputOnlyMembers(inputs, props);
        assert inputs[0] in InputOnly(inputs, props);
      }
    }
  }

  /** Some reconciled entry is auto-numeric exactly when some model field is. */
  lemma ReconciledAutoNumeric(fields: seq<ModelField>, inputs: seq<InputField>, entity: int,
                              docs: Documentation, codes: KindCodes)
    ensures AnyAutoNumeric(Reconciled(fields, inputs, entity, docs, codes)) <==>
      exists i | 0 <= i < |fields| :: fields[i].isAutoNumeric
  {
    var r := Reconciled(fields, inputs, entity, docs, codes);
    var props := ModelEntries(fields, inputs, entity, docs, codes);
    if AnyAutoNumeric(r) {
      var i :| 0 <= i < |r| && r[i].autoNumeric;
      assert i < |fields|;
      assert r[i] == props[i];
    }
    if exists i | 0 <= i < |fields| :: fields[i].isAutoNumeric {
      var i :| 0 <= i < |fields| && fields[i].isAutoNumeric;
      assert r[i] == props[i];
    }
  }

  /**
   * An exported class's entity takes its header from the EntityIndexAttribute, its
   * name and menus from the class, and is auto-numeric exactly when it has an input
   * class and some model field is auto-numeric.
   */
  lemma EntityHeader(t: ModelType, inputTypes: InputTypes, docs: Documentation, codes: KindCodes, e: EntityMetadata)
    requires t.entityIndexes != [] && EntityOf(t, inputTypes, docs, codes) == Ok(e)
    ensures var h := t.entityIndexes[0];
      && e.index == h.index && e.visible == h.visible && e.pathName == h.pathName && e.entityKind == h.kind
      && e.className == t.name && e.menus == t.menus
      && e.title == docs.entityInfo(h.index).title && e.shortName == docs.entityInfo(h.index).shortName
      && e.description == docs.entityInfo(h.index).description
    ensures e.autoNumeric <==>
      t.entityIndexes[0].index in inputTypes && exists i | 0 <= i < |t.fields| :: t.fields[i].isAutoNumeric
  {
    var h := t.entityIndexes[0];
    var props := GetPropertySearchInfo(t, inputTypes, docs, codes);
    var model := Folded(props, docs, h.index, codes).value;
    FoldedShape(props, docs, h.index, codes, model);
    if h.index in inputTypes {
      ReconciledAutoNumeric(t.fields, inputTypes[h.index], h.index, docs, codes);
    }
  }

  /**
   * A class with an EntityIndexAttribute but no input class is still exported, with
   * every map empty and AutoNumeric false.
   */
  lemma MissingInputExported(t: ModelType, inputTypes: InputTypes, docs: Documentation, codes: KindCodes)
    requires t.entityIndexes != [] && t.entityIndexes[0].index !in inputTypes
    ensures EntityOf(t, inputTypes, docs, codes).Ok?
    ensures var e := EntityOf(t, inputTypes, docs, codes).value;
      && e.index == t.entityIndexes[0].index && e.className == t.name && !e.autoNumeric
      && e.boolData == map[] && e.stringData == map[] && e.dateData == map[] && e.doubleData == map[]
      && e.enumData == map[] && e.geoData == map[] && e.numData == map[] && e.relData == map[]
  {
    var empty: seq<PropertySearchInfo> := [];
    assert GetPropertySearchInfo(t, inputTypes, docs, codes) == empty;
    FoldedSucceeds(empty, docs, t.entityIndexes[0].index, codes);
    var model := Folded(empty, docs, t.entityIndexes[0].index, codes).value;
    FoldedShape(empty, docs, t.entityIndexes[0].index, codes, model);
  }

  /** Collecting succeeds with every value in order, or fails with the first error. */
  lemma {:induction false} CollectSpec(rs: seq<Result<EntityMetadata, Error>>)
    ensures Collect(rs).Ok? <==> forall i | 0 <= i < |rs| :: rs[i].Ok?
    ensures Collect(rs).Ok? ==>
      |Collect(rs).value| == |rs| && forall i | 0 <= i < |rs| :: rs[i] == Ok(Collect(rs).value[i])
    ensures Collect(rs).Err? ==>
      exists i | 0 <= i < |rs| :: rs[i] == Err(Collect(rs).error) && forall j | 0 <= j < i :: rs[j].Ok?
  {
    if rs != [] {
      var tail := rs[1..];
      CollectSpec(tail);
      forall i | 0 <= i < |tail| ensures tail[i] == rs[i + 1] { }
      if rs[0].Ok? && Collect(tail).Err? {
        var i :| 0 <= i < |tail| && tail[i] == Err(Collect(tail).error) && forall j | 0 <= j < i :: tail[j].Ok?;
        assert rs[i + 1] == Err(Collect(rs).error);
        forall j | 0 <= j < i + 1 ensures rs[j].Ok? {
          if j > 0 { assert rs[j] == tail[j - 1]; }
        }
      }
      if rs[0].Ok? && Collect(tail).Ok? {
        assert Collect(rs).value == [rs[0].value] + Collect(tail).value;
      }
    }
  }

  /**
   * GenerateDataMdm: the document lists one entity per class with an
   * EntityIndexAttribute, in discovery order, each built from that class alone.
   */
  lemma DocumentSpec(types: seq<ModelType>, inputTypes: InputTypes, docs: Documentation, codes: KindCodes)
    ensures forall i | 0 <= i < |Exported(types)| :: Exported(types)[i].entityIndexes != []
    ensures GenerateDataMdm(types, inputTypes, docs, codes).Ok? ==>
      var d := GenerateDataMdm(types, inputTypes, docs, codes).value;
      var rs := Outcomes(Exported(types), inputTypes, docs, codes);
      |d.indexes| == |rs| && forall i | 0 <= i < |rs| :: rs[i] == Ok(d.indexes[i])
    ensures GenerateDataMdm(types, inputTypes, docs, codes).Err? ==>
      var rs := Outcomes(Exported(types), inputTypes, docs, codes);
      exists i | 0 <= i < |rs| ::
        && rs[i] == Err(GenerateDataMdm(types, inputTypes, docs, codes).error)
        && forall j | 0 <= j < i :: rs[j].Ok?
  {
    ExportedHaveIndex(types);
    var rs := Outcomes(Exported(types), inputTypes, docs, codes);
    CollectSpec(rs);
    GenerateDataMdmCollect(types, inputTypes, docs, codes);
  }

  /** The document is the collected entities, and its exception is theirs. */
  lemma GenerateDataMdmCollect(types: seq<ModelType>, inputTypes: InputTypes, docs: Documentation, codes: KindCodes)
    ensures forall i | 0 <= i < |Exported(types)| :: Exported(types)[i].entityIndexes != []
    ensures var g := GenerateDataMdm(types, inputTypes, docs, codes);
      var c := Collect(Outcomes(Exported(types), inputTypes, docs, codes));
      && (g.Ok? <==> c.Ok?)
      && (g.Ok? ==> g.value.indexes == c.value)
      && (g.Err? ==> g.error == c.error)
  {
    ExportedHaveIndex(types);
  }
}
