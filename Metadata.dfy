/**
 * The records the metadata engine reads and produces. Reflection over the model
 * and input classes is replaced by explicit field records; the documentation
 * implementation (IMdmDocumentation) by two functions.
 */
module Metadata {

  /**
   * Numeric codes of the KindProperty and KindEntityProperty enumerations. Their
   * values are not part of this model, so every definition takes them as a parameter.
   */
  datatype KindCodes = KindCodes(
    boolean: int, str: int, date: int, dbl: int, num32: int, num64: int,
    geo: int, enumeration: int, suggestion: int,
    reference: int, localReference: int)

  /** Title, short name and description, as the documentation implementation returns them. */
  datatype DisplayInfo = DisplayInfo(title: string, shortName: string, description: string)

  /**
   * IMdmDocumentation: `entityInfo(index)` is GetInfoFromEntity, `propertyInfo(kind, index)`
   * is GetInfoFromProperty.
   */
  datatype Documentation = Documentation(
    entityInfo: int -> DisplayInfo,
    propertyInfo: (int, int) -> DisplayInfo)

  /**
   * A property of a model class that carries a BaseIndexAttribute: the property name,
   * the attribute's Index, IsEntity, KindIndex and Visible, whether the attribute is an
   * AutoNumericDependantAttribute, whether the property type is enumerable, and the
   * labels GetDescription gives for the property type.
   */
  datatype ModelField = ModelField(
    name: string, index: int, isEntity: bool, kindIndex: int,
    visible: bool, isAutoNumeric: bool, isEnumerable: bool,
    typeLabels: map<int, string>)

  /**
   * A property of an input class that carries a BaseIndexAttribute, and whether it also
   * carries a RequiredAttribute and a UniqueAttribute.
   */
  datatype InputField = InputField(
    name: string, index: int, isEntity: bool, kindIndex: int,
    hasRequired: bool, hasUnique: bool, isEnumerable: bool,
    typeLabels: map<int, string>)

  /**
   * One reconciled property. `related` is the KindProperty code (0 for an entity
   * reference), `relatedEntity` the KindEntityProperty code (0 for a value property).
   */
  datatype PropertySearchInfo = PropertySearchInfo(
    name: string, index: int, isEntity: bool, related: int, relatedEntity: int,
    isEnumerable: bool, enums: map<int, string>, indexClass: int, info: DisplayInfo,
    isRequired: bool, isUnique: bool, autoNumeric: bool, visible: bool, hasInput: bool)

  /** The exported projection of a property, held under its field index. */
  datatype PropertyMetadata = PropertyMetadata(
    nameProp: string, visible: bool, autoNumeric: bool, isArray: bool,
    info: DisplayInfo, required: bool, unique: bool, hasInput: bool)

  /** The exported projection of an enumeration property. */
  datatype PropertyMetadataEnum = PropertyMetadataEnum(
    nameProp: string, isArray: bool, info: DisplayInfo, enumData: map<int, string>)

  /** A menu group attached to an entity class; its contents are carried, not interpreted. */
  type MenuGroup = string

  /** The metadata of one entity, with one map per folded kind, keyed by field index. */
  datatype EntityMetadata = EntityMetadata(
    index: int, title: string, shortName: string, description: string,
    visible: bool, pathName: string, entityKind: int, className: string,
    autoNumeric: bool, menus: seq<MenuGroup>,
    boolData: map<int, PropertyMetadata>,
    stringData: map<int, PropertyMetadata>,
    dateData: map<int, PropertyMetadata>,
    doubleData: map<int, PropertyMetadata>,
    enumData: map<int, PropertyMetadataEnum>,
    geoData: map<int, PropertyMetadata>,
    numData: map<int, PropertyMetadata>,
    relData: map<int, PropertyMetadata>)

  /** The whole document, one entry per exported entity. */
  datatype ModelMetaData = ModelMetaData(indexes: seq<EntityMetadata>)

  /**
   * The exceptions the engine can raise: `Name[0]` on an empty property name
   * (IndexOutOfRangeException) and `Dictionary.Add` of a key already present
   * (ArgumentException), both carrying the field index involved.
   */
  datatype Error = EmptyName(index: int) | DuplicateKey(key: int)
}
