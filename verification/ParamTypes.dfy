/** Parameter types, values and descriptors (mirrors rcl_interfaces). */
module ParamTypes {
  import opened Sequences
  import opened Wrappers

  /** The integer tags are wire-significant: see Tag. */
  datatype ParameterType =
    | NOT_SET | BOOL | INTEGER | DOUBLE | STRING
    | BYTE_ARRAY | BOOL_ARRAY | INTEGER_ARRAY | DOUBLE_ARRAY | STRING_ARRAY

  type Int64 = i: int | -0x8000_0000_0000_0000 <= i < 0x8000_0000_0000_0000

  /** A well-typed parameter value: the type tag with a native value of that type. */
  datatype ParameterValue =
    | NotSet
    | BoolValue(b: bool)
    | IntegerValue(i: int)
    | DoubleValue(d: real)
    | StringValue(s: string)
    | ByteArray(bytes: seq<Byte>)
    | BoolArray(bools: seq<bool>)
    | IntegerArray(ints: seq<int>)
    | DoubleArray(doubles: seq<real>)
    | StringArray(strings: seq<string>)
  {
    function Type(): ParameterType
    {
      match this
      case NotSet => NOT_SET
      case BoolValue(_) => BOOL
      case IntegerValue(_) => INTEGER
      case DoubleValue(_) => DOUBLE
      case StringValue(_) => STRING
      case ByteArray(_) => BYTE_ARRAY
      case BoolArray(_) => BOOL_ARRAY
      case IntegerArray(_) => INTEGER_ARRAY
      case DoubleArray(_) => DOUBLE_ARRAY
      case StringArray(_) => STRING_ARRAY
    }
  }

  function Tag(t: ParameterType): int
  {
    match t
    case NOT_SET => 0
    case BOOL => 1
    case INTEGER => 2
    case DOUBLE => 3
    case STRING => 4
    case BYTE_ARRAY => 5
    case BOOL_ARRAY => 6
    case INTEGER_ARRAY => 7
    case DOUBLE_ARRAY => 8
    case STRING_ARRAY => 9
  }

  datatype IntegerRange = IntegerRange(fromValue: int, toValue: int, step: int)
  datatype FloatingPointRange = FloatingPointRange(fromValue: real, toValue: real, step: real)

  /** The contents of a descriptor; the live descriptor object is ParamServer.ParameterDescriptor. */
  datatype Descriptor = Descriptor(
    name: string,
    typ: ParameterType,
    description: string,
    additionalConstraints: string,
    readOnly: bool,
    dynamicTyping: bool,
    floatingPointRange: Option<FloatingPointRange>,
    integerRange: Option<IntegerRange>)

  /** `ParameterDescriptor(name=name)`: every other field at its default. */
  function BlankDescriptor(name: string): Descriptor
  {
    Descriptor(name, NOT_SET, "", "", false, false, None, None)
  }
}
