/**
 * The two TypeGen name converters: JsonMemberNameConverter.Convert, which prefers the
 * name a JsonProperty attribute gives, and TypeMemberConverter.Convert, which strips
 * the leading "I" of an interface name. `null` is `None`.
 */
module Converters {
  import opened Wrappers

  /** The exceptions `Substring(1)` can raise. */
  datatype ConvertError =
    | NullReference       // `Substring` called on a null name
    | ArgumentOutOfRange  // `"".Substring(1)`: the start index lies past the end

  /** `s.Substring(1)`: everything after the first character. */
  function DropFirst(s: string): (r: Result<string, ConvertError>)
    ensures r.Ok? <==> |s| > 0
    ensures r.Ok? ==> |r.value| == |s| - 1 && [s[0]] + r.value == s
    ensures r.Err? ==> r.error == ArgumentOutOfRange
  {
    if |s| == 0 then Err(ArgumentOutOfRange) else Ok(s[1..])
  }

  /** TypeMemberConverter.Convert: an interface loses its first character, any other type keeps its name. */
  function TypeName(name: string, isInterface: bool): (r: Result<string, ConvertError>)
    ensures !isInterface ==> r == Ok(name)
    ensures isInterface ==> (r.Ok? <==> |name| > 0)
    ensures isInterface && r.Ok? ==> |r.value| == |name| - 1 && name == [name[0]] + r.value
    ensures r.Err? ==> isInterface && name == [] && r.error == ArgumentOutOfRange
  {
    if isInterface then DropFirst(name) else Ok(name)
  }

  /** A JsonPropertyAttribute; its PropertyName may be null. */
  datatype JsonPropertyAttribute = JsonPropertyAttribute(propertyName: Option<string>)

  /**
   * JsonMemberNameConverter.Convert. `attribute` is the member's JsonPropertyAttribute,
   * if any. `runtimeClassIsInterface` is `memberInfo.GetType().IsInterface`: the test is
   * on the class of the reflection object, not on the member's own type.
   */
  function MemberName(name: string, attribute: Option<JsonPropertyAttribute>, runtimeClassIsInterface: bool)
    : (r: Result<Option<string>, ConvertError>)
    ensures var chosen := if attribute.Some? then attribute.value.propertyName else Some(name);
      && (!runtimeClassIsInterface ==> r == Ok(chosen))
      && (runtimeClassIsInterface && chosen.None? ==> r == Err(NullReference))
      && (runtimeClassIsInterface && chosen.Some? ==>
            (r.Ok? <==> |chosen.value| > 0)
            && (r.Ok? ==> r.value.Some? && [chosen.value[0]] + r.value.value == chosen.value))
  {
    var jsonName := if attribute.Some? then attribute.value.propertyName else Some(name);
    if runtimeClassIsInterface then
      match jsonName
      case None => Err(NullReference)
      case Some(n) =>
        var stripped :- DropFirst(n);
        Ok(Some(stripped))
    else Ok(jsonName)
  }

  // ---- properties of the converters ----

  /** Stripping is the inverse of the "I" prefix interfaces are named with. */
  lemma TypeNameStripsPrefix(name: string)
    ensures TypeName("I" + name, true) == Ok(name)
  {
    assert ("I" + name)[1..] == name;
  }

  /** Without a JsonProperty attribute the member converter agrees with the type converter. */
  lemma MemberNameWithoutAttribute(name: string, runtimeClassIsInterface: bool)
    ensures MemberName(name, None, runtimeClassIsInterface).Ok? <==> TypeName(name, runtimeClassIsInterface).Ok?
    ensures TypeName(name, runtimeClassIsInterface).Ok? ==>
      MemberName(name, None, runtimeClassIsInterface) == Ok(Some(TypeName(name, runtimeClassIsInterface).value))
  {
  }

  /** The attribute's name wins over the member's name, null included. */
  lemma MemberNameAttributeWins(name: string, other: string, propertyName: Option<string>, runtimeClassIsInterface: bool)
    ensures MemberName(name, Some(JsonPropertyAttribute(propertyName)), runtimeClassIsInterface)
         == MemberName(other, Some(JsonPropertyAttribute(propertyName)), runtimeClassIsInterface)
  {
  }
}
