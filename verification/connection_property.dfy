/**
 * JDBC connection-property validation (`BaseConnectionProperty`): looking a
 * property up in the merged connection properties, deciding whether its
 * absence is an error, and converting the stored string.
 */
module ConnectionProperty {
  import opened Wrappers

  /** `java.util.Properties`, restricted to string keys and values. */
  type Properties = map<string, string>

  /** An unchecked exception thrown by a required-predicate; only its kind matters. */
  datatype RuntimeError = NullPointer

  /**
   * What `getValue` throws: its own `SQLException`s, with the key and value
   * they name, or the unchecked exception of the required-predicate, which
   * is not caught and passes through unchanged.
   */
  datatype PropertyError =
    | MissingRequired(key: string)
    | ConversionFailed(value: string, key: string)
    | PredicateThrew(cause: RuntimeError)

  /** Whatever exception a converter throws; only its presence matters. */
  datatype ConversionError = ConversionError(reason: string)

  /** A converter is a partial function from the stored string to a value. */
  type Converter<T> = string -> Result<T, ConversionError>

  /** A `Predicate<Properties>`: it answers, or throws an unchecked exception. */
  type RequiredPredicate = Properties -> Result<bool, RuntimeError>

  datatype Property<T> = Property(
    key: string,
    defaultValue: Option<string>,
    isRequired: RequiredPredicate,
    converter: Converter<T>)

  /** `DriverPropertyInfo(key, currentValue)` with its `required` flag set. */
  datatype DriverPropertyInfo = DriverPropertyInfo(name: string, value: Option<string>, required: bool)

  /** The message of an `SQLException`, as the source formats it; the key and value can be read back from it. */
  function Message(e: PropertyError): (m: string)
    requires !e.PredicateThrew?
    ensures e.MissingRequired? ==> |m| == 34 + |e.key| + 12 && m[34..|m| - 12] == e.key
    ensures e.ConversionFailed? ==>
      && |m| == 24 + |e.value| + 9 + |e.key|
      && m[24..24 + |e.value|] == e.value
      && m[|m| - |e.key|..] == e.key
  {
    match e
    case MissingRequired(key) => "Connection property/URL parameter " + key + " is required"
    case ConversionFailed(value, key) => "Failed to convert value " + value + " for key " + key
  }

  /** `getProperty(key)`: the stored value, or null when the key is absent. */
  function GetProperty(properties: Properties, key: string): (v: Option<string>)
    ensures v.Some? <==> key in properties
    ensures v.Some? ==> v.value == properties[key]
  {
    if key in properties then Some(properties[key]) else None
  }

  /** `isRequired`: the property's predicate; a `REQUIRED` property always answers yes, a `NOT_REQUIRED` one always no. */
  function IsRequired<T>(p: Property<T>, properties: Properties): (r: Result<bool, RuntimeError>)
    ensures p.isRequired == Required ==> r == Success(true)
    ensures p.isRequired == NotRequired ==> r == Success(false)
  {
    p.isRequired(properties)
  }

  /**
   * `getValue`: absent and required fails, absent and optional is empty,
   * present is converted; a predicate that throws makes `getValue` throw.
   */
  function GetValue<T>(p: Property<T>, properties: Properties): (r: Result<Option<T>, PropertyError>)
    ensures p.key !in properties && IsRequired(p, properties) == Success(true) ==> r == Failure(MissingRequired(p.key))
    ensures p.key !in properties && IsRequired(p, properties) == Success(false) ==> r == Success(None)
    ensures p.key !in properties && IsRequired(p, properties).Failure?
      ==> r == Failure(PredicateThrew(IsRequired(p, properties).error))
    ensures r.Failure? && r.error.PredicateThrew? ==> p.key !in properties
    ensures p.key in properties && p.converter(properties[p.key]).Success?
      ==> r == Success(Some(p.converter(properties[p.key]).value))
    ensures p.key in properties && p.converter(properties[p.key]).Failure?
      ==> r == Failure(ConversionFailed(properties[p.key], p.key))
    ensures r.Success? && r.value.Some? ==> p.key in properties
  {
    match GetProperty(properties, p.key)
    case None =>
      (match IsRequired(p, properties)
       case Failure(e) => Failure(PredicateThrew(e))
       case Success(required) => if required then Failure(MissingRequired(p.key)) else Success(None))
    case Some(value) =>
      match p.converter(value)
      case Success(v) => Success(Some(v))
      case Failure(_) => Failure(ConversionFailed(value, p.key))
  }

  /** `validate`: `getValue` with the value discarded, so it fails exactly when `getValue` does. */
  function Validate<T>(p: Property<T>, properties: Properties): (r: Result<(), PropertyError>)
    ensures r.Success? <==> GetValue(p, properties).Success?
    ensures r.Failure? ==> r.error == GetValue(p, properties).error
  {
    match GetValue(p, properties)
    case Success(_) => Success(())
    case Failure(e) => Failure(e)
  }

  /**
   * `getDriverPropertyInfo`: the key, the current (possibly absent) value and
   * the required flag. The predicate is always evaluated, present key or not,
   * so a predicate that throws makes the report throw.
   */
  function GetDriverPropertyInfo<T>(p: Property<T>, mergedProperties: Properties): (r: Result<DriverPropertyInfo, RuntimeError>)
    ensures r.Failure? <==> IsRequired(p, mergedProperties).Failure?
    ensures r.Failure? ==> r.error == IsRequired(p, mergedProperties).error
    ensures r.Success? ==> r.value.name == p.key
    ensures r.Success? ==> (r.value.value.Some? <==> p.key in mergedProperties)
    ensures r.Success? && r.value.value.Some? ==> r.value.value.value == mergedProperties[p.key]
    ensures r.Success? ==> r.value.required == IsRequired(p, mergedProperties).value
  {
    match IsRequired(p, mergedProperties)
    case Failure(e) => Failure(e)
    case Success(required) => Success(DriverPropertyInfo(p.key, GetProperty(mergedProperties, p.key), required))
  }

  /**
   * For a missing key, the driver's property report predicts `getValue`'s
   * verdict: both throw the predicate's exception, or the report's flag says
   * whether `getValue` fails.
   */
  lemma DriverInfoPredictsMissingKey<T>(p: Property<T>, properties: Properties)
    requires p.key !in properties
    ensures GetDriverPropertyInfo(p, properties).Failure?
        <==> GetValue(p, properties).Failure? && GetValue(p, properties).error.PredicateThrew?
    ensures GetDriverPropertyInfo(p, properties).Failure?
        ==> GetValue(p, properties).error == PredicateThrew(GetDriverPropertyInfo(p, properties).error)
    ensures GetDriverPropertyInfo(p, properties).Success? ==> GetDriverPropertyInfo(p, properties).value.value == None
    ensures GetDriverPropertyInfo(p, properties).Success?
        ==> (GetDriverPropertyInfo(p, properties).value.required <==> GetValue(p, properties).Failure?)
  {
  }

  /** `REQUIRED`: holds of every property set, and never throws. */
  function Required(properties: Properties): (r: Result<bool, RuntimeError>)
    ensures r.Success? && r.value
  {
    Success(true)
  }

  /** `NOT_REQUIRED`: holds of no property set, and never throws. */
  function NotRequired(properties: Properties): (r: Result<bool, RuntimeError>)
    ensures r.Success? && !r.value
  {
    Success(false)
  }

  /** `STRING_CONVERTER`: the identity, which never fails. */
  function StringConverter(value: string): (r: Result<string, ConversionError>)
    ensures r.Success? && r.value == value
  {
    Success(value)
  }

  /** A `REQUIRED` property fails on every property set that lacks its key. */
  lemma RequiredPropertyRejectsAbsence<T>(key: string, default: Option<string>, converter: Converter<T>, properties: Properties)
    requires key !in properties
    ensures GetValue(Property(key, default, Required, converter), properties) == Failure(MissingRequired(key))
    ensures Validate(Property(key, default, Required, converter), properties).Failure?
  {
  }

  /** A `NOT_REQUIRED` property never fails for an absent key, and then has no value. */
  lemma OptionalPropertyAllowsAbsence<T>(key: string, default: Option<string>, converter: Converter<T>, properties: Properties)
    requires key !in properties
    ensures GetValue(Property(key, default, NotRequired, converter), properties) == Success(None)
    ensures Validate(Property(key, default, NotRequired, converter), properties).Success?
  {
  }

  /**
   * A present value decides the outcome alone: the required predicate is not
   * consulted, so two properties that differ only in it agree.
   */
  lemma PresentValueIgnoresRequirement<T>(key: string, default: Option<string>, r1: RequiredPredicate, r2: RequiredPredicate,
                                          converter: Converter<T>, properties: Properties)
    requires key in properties
    ensures GetValue(Property(key, default, r1, converter), properties) == GetValue(Property(key, default, r2, converter), properties)
  {
  }

  /** The default value plays no part in `getValue`: defaults are merged by the caller. */
  lemma DefaultIgnoredByGetValue<T>(p: Property<T>, default: Option<string>, properties: Properties)
    ensures GetValue(p.(defaultValue := default), properties) == GetValue(p, properties)
  {
  }

  /** A string property reads back exactly the stored string, and validates whenever the key is present. */
  lemma StringPropertyRoundTrip(key: string, default: Option<string>, isRequired: RequiredPredicate, properties: Properties, value: string)
    ensures GetValue(Property(key, default, isRequired, StringConverter), properties[key := value]) == Success(Some(value))
    ensures Validate(Property(key, default, isRequired, StringConverter), properties[key := value]).Success?
  {
  }

  /**
   * `dependsKeyValue(property, value)` as written: `properties.get(key)` is
   * null for an absent key, and calling `equals` on it throws.
   */
  function DependsKeyValueAsWritten(key: string, expected: string, properties: Properties): (r: Result<bool, RuntimeError>)
    ensures r.Failure? <==> key !in properties
    ensures r.Success? ==> (r.value <==> properties[key] == expected)
  {
    if key in properties then Success(properties[key] == expected) else Failure(NullPointer)
  }

  /** A property set lacking the depended-on key makes the required-predicate throw. */
  lemma DependsKeyValueThrowsOnAbsentKey()
    ensures DependsKeyValueAsWritten("SSL", "true", map[]) == Failure(NullPointer)
  {
  }

  /**
   * `dependsKeyValue(property, value)` as intended: the property is required
   * exactly when the other key holds the given value's string form; an
   * absent key does not hold it.
   */
  function DependsKeyValue(key: string, expected: string): (pred: RequiredPredicate)
    ensures forall properties :: pred(properties).Success?
    ensures forall properties :: pred(properties).Success? ==>
      (pred(properties).value <==> key in properties && properties[key] == expected)
  {
    properties => Success(key in properties && properties[key] == expected)
  }

  /** The intended predicate agrees with the one written wherever that one does not throw. */
  lemma DependsKeyValueAgreesWhenPresent(key: string, expected: string, properties: Properties)
    ensures DependsKeyValueAsWritten(key, expected, properties).Success?
      ==> DependsKeyValueAsWritten(key, expected, properties) == DependsKeyValue(key, expected)(properties)
    ensures key !in properties ==> DependsKeyValue(key, expected)(properties) == Success(false)
  {
  }

  /**
   * A property that depends on another key's value is required exactly when
   * that key holds the value: then its own absence is an error, otherwise it is empty.
   */
  lemma DependentPropertyAbsence<T>(key: string, other: string, expected: string, converter: Converter<T>, properties: Properties)
    requires key !in properties
    ensures GetValue(Property(key, None, DependsKeyValue(other, expected), converter), properties).Failure?
        <==> other in properties && properties[other] == expected
  {
  }

  /**
   * With `dependsKeyValue` as written, a property that depends on another
   * key and is itself absent makes `getValue`, `validate` and
   * `getDriverPropertyInfo` throw whenever that other key is absent too; when
   * it is present, `getValue` behaves as with the intended predicate.
   */
  lemma DependentPropertyAbsenceAsWritten<T>(key: string, other: string, expected: string, converter: Converter<T>, properties: Properties)
    requires key !in properties
    ensures var p := Property(key, None, props => DependsKeyValueAsWritten(other, expected, props), converter);
      && (other !in properties ==> GetValue(p, properties) == Failure(PredicateThrew(NullPointer)))
      && (other !in properties ==> Validate(p, properties) == Failure(PredicateThrew(NullPointer)))
      && (other !in properties ==> GetDriverPropertyInfo(p, properties) == Failure(NullPointer))
      && (other in properties ==>
            GetValue(p, properties) == GetValue(Property(key, None, DependsKeyValue(other, expected), converter), properties))
  {
  }

  /** A concrete instance: on an empty property set, `getValue` of a dependent property throws instead of failing with an `SQLException`. */
  lemma DependentGetValueThrowsOnEmptyProperties()
    ensures GetValue(Property("SSLTrustStorePath", None, props => DependsKeyValueAsWritten("SSL", "true", props), StringConverter), map[])
         == Failure(PredicateThrew(NullPointer))
  {
  }
}
