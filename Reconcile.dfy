/**
 * Reconciliation of one entity's model-side and input-side properties into
 * PropertySearchInfo entries (DataGen.GetPropertyByIndex; MdmGen.GetPropertyByIndex
 * is the same code).
 */
module Reconcile {
  import opened Wrappers
  import opened Metadata

  /** An input field pairs with a model field when Index and IsEntity agree; the kind is not compared. */
  predicate Pairs(p: InputField, index: int, isEntity: bool) {
    p.index == index && p.isEntity == isEntity
  }

  /** Position of the input field `FirstOrDefault` picks, if any. */
  function FirstMatch(inputs: seq<InputField>, index: int, isEntity: bool): (r: Option<nat>)
    ensures r.Some? ==> r.value < |inputs| && Pairs(inputs[r.value], index, isEntity)
    ensures r.Some? ==> forall j | 0 <= j < r.value :: !Pairs(inputs[j], index, isEntity)
    ensures r.None? <==> forall j | 0 <= j < |inputs| :: !Pairs(inputs[j], index, isEntity)
  {
    if inputs == [] then None
    else if Pairs(inputs[0], index, isEntity) then Some(0)
    else match FirstMatch(inputs[1..], index, isEntity)
      case None => None
      case Some(k) => Some(k + 1)
  }

  /** `Enums`: the type's labels for a value property of kind ENUM, otherwise empty. */
  function EnumLabels(isEntity: bool, kindIndex: int, typeLabels: map<int, string>, codes: KindCodes): map<int, string>
  {
    if !isEntity && kindIndex == codes.enumeration then typeLabels else map[]
  }

  /** The entry built for one model field of entity `entity`. */
  function FromModelField(f: ModelField, inputs: seq<InputField>, entity: int,
                          docs: Documentation, codes: KindCodes): PropertySearchInfo
  {
    var m := FirstMatch(inputs, f.index, f.isEntity);
    PropertySearchInfo(
      name := f.name, index := f.index, isEntity := f.isEntity,
      related := if f.isEntity then 0 else f.kindIndex,
      relatedEntity := if f.isEntity then f.kindIndex else 0,
      isEnumerable := f.isEnumerable,
      enums := EnumLabels(f.isEntity, f.kindIndex, f.typeLabels, codes),
      indexClass := entity,
      info := if f.isEntity then docs.entityInfo(entity) else docs.propertyInfo(f.kindIndex, f.index),
      isRequired := m.Some? && inputs[m.value].hasRequired,
      isUnique := m.Some? && inputs[m.value].hasUnique,
      autoNumeric := f.isAutoNumeric,
      visible := f.visible,
      hasInput := m.Some?)
  }

  /** The entries for the model fields, in model property order. */
  function ModelEntries(fields: seq<ModelField>, inputs: seq<InputField>, entity: int,
                        docs: Documentation, codes: KindCodes): seq<PropertySearchInfo>
  {
    seq(|fields|, i requires 0 <= i < |fields| => FromModelField(fields[i], inputs, entity, docs, codes))
  }

  /** `props.Any(a => a.Name.Equals(name))`. */
  predicate NameTaken(props: seq<PropertySearchInfo>, name: string) {
    exists i | 0 <= i < |props| :: props[i].name == name
  }

  /**
   * The entry synthesized for an input field no model entry names. HasInput, Visible
   * and AutoNumeric are never assigned and keep their default, false; an entity
   * reference takes its documentation from the field's own index.
   */
  function FromInputField(p: InputField, entity: int, docs: Documentation, codes: KindCodes): PropertySearchInfo
  {
    PropertySearchInfo(
      name := p.name, index := p.index, isEntity := p.isEntity,
      related := if p.isEntity then 0 else p.kindIndex,
      relatedEntity := if p.isEntity then p.kindIndex else 0,
      isEnumerable := p.isEnumerable,
      enums := EnumLabels(p.isEntity, p.kindIndex, p.typeLabels, codes),
      indexClass := entity,
      info := if p.isEntity then docs.entityInfo(p.index) else docs.propertyInfo(p.kindIndex, p.index),
      isRequired := p.hasRequired,
      isUnique := p.hasUnique,
      autoNumeric := false,
      visible := false,
      hasInput := false)
  }

  /** The input fields whose name is not among `props`, in input order. */
  function InputOnly(inputs: seq<InputField>, props: seq<PropertySearchInfo>): seq<InputField>
  {
    if inputs == [] then []
    else
      var last := inputs[|inputs| - 1];
      InputOnly(inputs[..|inputs| - 1], props) + (if NameTaken(props, last.name) then [] else [last])
  }

  function Synthesized(extra: seq<InputField>, entity: int, docs: Documentation, codes: KindCodes): seq<PropertySearchInfo>
  {
    seq(|extra|, k requires 0 <= k < |extra| => FromInputField(extra[k], entity, docs, codes))
  }

  /**
   * What GetPropertyByIndex returns: the model entries, then one synthesized entry per
   * input field whose name no model entry has. The name test is against the model
   * entries only: the lazy filter reads `props` before it is reassigned.
   */
  function Reconciled(fields: seq<ModelField>, inputs: seq<InputField>, entity: int,
                      docs: Documentation, codes: KindCodes): seq<PropertySearchInfo>
  {
    var props := ModelEntries(fields, inputs, entity, docs, codes);
    props + Synthesized(InputOnly(inputs, props), entity, docs, codes)
  }

  lemma {:induction false} InputOnlyNone(inputs: seq<InputField>, props: seq<PropertySearchInfo>)
    requires forall j | 0 <= j < |inputs| :: NameTaken(props, inputs[j].name)
    ensures InputOnly(inputs, props) == []
  {
    if inputs != [] {
      InputOnlyNone(inputs[..|inputs| - 1], props);
    }
  }

  method GetPropertyByIndex(fields: seq<ModelField>, entity: int, inputs: seq<InputField>,
                            docs: Documentation, codes: KindCodes)
    returns (props: seq<PropertySearchInfo>)
    ensures props == Reconciled(fields, inputs, entity, docs, codes)
  {
    props := ModelEntries(fields, inputs, entity, docs, codes);
    if exists j | 0 <= j < |inputs| :: !NameTaken(props, inputs[j].name) {
      var list := props;
      for i := 0 to |inputs|
        invariant list == props + Synthesized(InputOnly(inputs[..i], props), entity, docs, codes)
      {
        assert inputs[..i + 1][..i] == inputs[..i];
        if !NameTaken(props, inputs[i].name) {
          list := list + [FromInputField(inputs[i], entity, docs, codes)];
        }
      }
      assert inputs[..|inputs|] == inputs;
      props := list;
    } else {
      InputOnlyNone(inputs, props);
    }
  }

  // ---- properties of the reconciled entries ----

  /**
   * Each model field yields the entry at its own position, with its own name, index,
   * IsEntity, visibility, auto-numeric and IsEnumerable flags. HasInput holds exactly
   * when some input field has the same (Index, IsEntity); Required and Unique come
   * from the first such field and are false without one.
   */
  lemma ModelEntryJoin(fields: seq<ModelField>, inputs: seq<InputField>, entity: int,
                       docs: Documentation, codes: KindCodes, i: nat)
    requires i < |fields|
    ensures var r := Reconciled(fields, inputs, entity, docs, codes);
      && |r| >= |fields|
      && r[i].name == fields[i].name && r[i].index == fields[i].index && r[i].isEntity == fields[i].isEntity
      && r[i].visible == fields[i].visible && r[i].autoNumeric == fields[i].isAutoNumeric
      && r[i].isEnumerable == fields[i].isEnumerable && r[i].indexClass == entity
      && (r[i].hasInput <==> exists j | 0 <= j < |inputs| :: Pairs(inputs[j], fields[i].index, fields[i].isEntity))
      && (r[i].hasInput ==> exists j | 0 <= j < |inputs| ::
            && Pairs(inputs[j], fields[i].index, fields[i].isEntity)
            && (forall j' | 0 <= j' < j :: !Pairs(inputs[j'], fields[i].index, fields[i].isEntity))
            && r[i].isRequired == inputs[j].hasRequired && r[i].isUnique == inputs[j].hasUnique)
      && (!r[i].hasInput ==> !r[i].isRequired && !r[i].isUnique)
  {
    var m := FirstMatch(inputs, fields[i].index, fields[i].isEntity);
    if m.Some? {
      assert Pairs(inputs[m.value], fields[i].index, fields[i].isEntity);
    }
  }

  /**
   * A model entry's labels are the type's labels exactly when it is a value property
   * of kind ENUM; an entity reference is documented by the owning entity's index.
   */
  lemma ModelEntryEnumsAndInfo(fields: seq<ModelField>, inputs: seq<InputField>, entity: int,
                               docs: Documentation, codes: KindCodes, i: nat)
    requires i < |fields|
    ensures var r := Reconciled(fields, inputs, entity, docs, codes);
      var f := fields[i];
      && |r| >= |fields|
      && (!f.isEntity && f.kindIndex == codes.enumeration ==> r[i].enums == f.typeLabels)
      && (f.isEntity || f.kindIndex != codes.enumeration ==> r[i].enums == map[])
      && (f.isEntity ==> r[i].info == docs.entityInfo(entity) && r[i].related == 0 && r[i].relatedEntity == f.kindIndex)
      && (!f.isEntity ==> r[i].info == docs.propertyInfo(f.kindIndex, f.index) && r[i].related == f.kindIndex && r[i].relatedEntity == 0)
  {
  }

  /** `InputOnly` distributes over concatenation: it keeps input order. */
  lemma {:induction false} InputOnlyAppend(a: seq<InputField>, b: seq<InputField>, props: seq<PropertySearchInfo>)
    ensures InputOnly(a + b, props) == InputOnly(a, props) + InputOnly(b, props)
    decreases |b|
  {
    if b != [] {
      var b' := b[..|b| - 1];
      assert (a + b)[..|a + b| - 1] == a + b';
      InputOnlyAppend(a, b', props);
    } else {
      assert a + b == a;
    }
  }

  /** Exactly the input fields whose name no model field has are kept. */
  lemma {:induction false} InputOnlyMembers(inputs: seq<InputField>, props: seq<PropertySearchInfo>)
    ensures forall p | p in InputOnly(inputs, props) :: p in inputs && !NameTaken(props, p.name)
    ensures forall j | 0 <= j < |inputs| :: !NameTaken(props, inputs[j].name) ==> inputs[j] in InputOnly(inputs, props)
  {
    if inputs != [] {
      var init := inputs[..|inputs| - 1];
      InputOnlyMembers(init, props);
      forall j | 0 <= j < |inputs| - 1 ensures inputs[j] == init[j] { }
    }
  }

  /** A model entry's name is taken exactly when some model field has that name. */
  lemma NameTakenByField(fields: seq<ModelField>, inputs: seq<InputField>, entity: int,
                         docs: Documentation, codes: KindCodes, name: string)
    ensures NameTaken(ModelEntries(fields, inputs, entity, docs, codes), name)
        <==> exists i | 0 <= i < |fields| :: fields[i].name == name
  {
    var props := ModelEntries(fields, inputs, entity, docs, codes);
    if exists i | 0 <= i < |fields| :: fields[i].name == name {
      var i :| 0 <= i < |fields| && fields[i].name == name;
      assert props[i].name == name;
    }
  }

  /**
   * The entries after the model ones are synthesized from input fields whose name
   * no model field has, in input order; their index, kind (Related or RelatedEntity),
   * labels, documentation and required/unique marks come from the input side and
   * HasInput, Visible and AutoNumeric are false.
   */
  lemma SynthesizedEntry(fields: seq<ModelField>, inputs: seq<InputField>, entity: int,
                         docs: Documentation, codes: KindCodes, k: nat)
    requires k < |InputOnly(inputs, ModelEntries(fields, inputs, entity, docs, codes))|
    ensures var extra := InputOnly(inputs, ModelEntries(fields, inputs, entity, docs, codes));
      var r := Reconciled(fields, inputs, entity, docs, codes);
      var p := extra[k];
      && |r| == |fields| + |extra|
      && p in inputs
      && (forall i | 0 <= i < |fields| :: fields[i].name != p.name)
      && r[|fields| + k].name == p.name && r[|fields| + k].index == p.index
      && r[|fields| + k].isEntity == p.isEntity
      && r[|fields| + k].isRequired == p.hasRequired && r[|fields| + k].isUnique == p.hasUnique
      && !r[|fields| + k].hasInput && !r[|fields| + k].visible && !r[|fields| + k].autoNumeric
      && r[|fields| + k].isEnumerable == p.isEnumerable && r[|fields| + k].indexClass == entity
      && (p.isEntity ==> r[|fields| + k].info == docs.entityInfo(p.index)
                         && r[|fields| + k].related == 0 && r[|fields| + k].relatedEntity == p.kindIndex)
      && (!p.isEntity ==> r[|fields| + k].info == docs.propertyInfo(p.kindIndex, p.index)
                          && r[|fields| + k].related == p.kindIndex && r[|fields| + k].relatedEntity == 0)
      && (!p.isEntity && p.kindIndex == codes.enumeration ==> r[|fields| + k].enums == p.typeLabels)
      && (p.isEntity || p.kindIndex != codes.enumeration ==> r[|fields| + k].enums == map[])
  {
    var props := ModelEntries(fields, inputs, entity, docs, codes);
    InputOnlyMembers(inputs, props);
    var p := InputOnly(inputs, props)[k];
    assert p in InputOnly(inputs, props);
    NameTakenByField(fields, inputs, entity, docs, codes, p.name);
  }

  /** Every input field whose name no model field has gets an entry after the model entries. */
  lemma InputOnlyCovered(fields: seq<ModelField>, inputs: seq<InputField>, entity: int,
                         docs: Documentation, codes: KindCodes, j: nat)
    requires j < |inputs| && forall i | 0 <= i < |fields| :: fields[i].name != inputs[j].name
    ensures var r := Reconciled(fields, inputs, entity, docs, codes);
      exists k | |fields| <= k < |r| :: r[k] == FromInputField(inputs[j], entity, docs, codes)
  {
    var props := ModelEntries(fields, inputs, entity, docs, codes);
    NameTakenByField(fields, inputs, entity, docs, codes, inputs[j].name);
    InputOnlyMembers(inputs, props);
    var extra := InputOnly(inputs, props);
    var k :| 0 <= k < |extra| && extra[k] == inputs[j];
    assert Reconciled(fields, inputs, entity, docs, codes)[|fields| + k] == FromInputField(inputs[j], entity, docs, codes);
  }

  /** Two input lists that differ only in their kind codes pair the same way. */
  predicate SameButKind(a: seq<InputField>, b: seq<InputField>) {
    |a| == |b| && forall j | 0 <= j < |a| :: a[j].(kindIndex := b[j].kindIndex) == b[j]
  }

  lemma {:induction false} FirstMatchIgnoresKind(a: seq<InputField>, b: seq<InputField>, index: int, isEntity: bool)
    requires SameButKind(a, b)
    ensures FirstMatch(a, index, isEntity) == FirstMatch(b, index, isEntity)
  {
    if a != [] {
      assert a[0].(kindIndex := b[0].kindIndex) == b[0];
      assert SameButKind(a[1..], b[1..]) by {
        forall j | 0 <= j < |a| - 1 ensures a[1..][j].(kindIndex := b[1..][j].kindIndex) == b[1..][j] {
          assert a[j + 1].(kindIndex := b[j + 1].kindIndex) == b[j + 1];
        }
      }
      FirstMatchIgnoresKind(a[1..], b[1..], index, isEntity);
    }
  }

  /** The kind of an input field plays no part in the model entries. */
  lemma ModelEntriesIgnoreInputKind(fields: seq<ModelField>, a: seq<InputField>, b: seq<InputField>,
                                    entity: int, docs: Documentation, codes: KindCodes)
    requires SameButKind(a, b)
    ensures ModelEntries(fields, a, entity, docs, codes) == ModelEntries(fields, b, entity, docs, codes)
  {
    forall i | 0 <= i < |fields|
      ensures FromModelField(fields[i], a, entity, docs, codes) == FromModelField(fields[i], b, entity, docs, codes)
    {
      FirstMatchIgnoresKind(a, b, fields[i].index, fields[i].isEntity);
      var m := FirstMatch(a, fields[i].index, fields[i].isEntity);
      if m.Some? {
        assert a[m.value].(kindIndex := b[m.value].kindIndex) == b[m.value];
      }
    }
  }
}
