/** The wire form of parameter values: rcl_interfaces/msg/ParameterValue and back. */
module Rcl {
  import opened Sequences
  import opened Wrappers
  import opened ParamTypes

  /** A tag and nine fields, of which the tag selects at most one. */
  datatype ValueMsg = ValueMsg(
    typ: int,
    boolValue: bool,
    integerValue: int,
    doubleValue: real,
    stringValue: string,
    byteArrayValue: seq<Byte>,
    boolArrayValue: seq<bool>,
    integerArrayValue: seq<Int64>,
    doubleArrayValue: seq<real>,
    stringArrayValue: seq<string>)

  /** rcl_interfaces/msg/Parameter; a request's `value` attribute may be missing. */
  datatype ParameterMsg = ParameterMsg(name: string, value: Option<ValueMsg>)

  datatype WireError = BadTypeTag(tag: int) | IntegerOverflow

  const BLANK := ValueMsg(0, false, 0, 0.0, "", [], [], [], [], [])

  predicate FitsInt64(ints: seq<int>)
  {
    forall k | 0 <= k < |ints| :: -0x8000_0000_0000_0000 <= ints[k] < 0x8000_0000_0000_0000
  }

  /** The numpy int64 array of an integer array overflows outside 64 bits; nothing else fails. */
  predicate Encodable(v: ParameterValue)
  {
    v.IntegerArray? ==> FitsInt64(v.ints)
  }

  function ParamValueToMsg(v: ParameterValue): Result<ValueMsg, WireError>
  {
    var fields := BLANK.(typ := Tag(v.Type()));
    match v
    case NotSet => Success(fields)
    case BoolValue(b) => Success(fields.(boolValue := b))
    case IntegerValue(i) => Success(fields.(integerValue := i))
    case DoubleValue(d) => Success(fields.(doubleValue := d))
    case StringValue(s) => Success(fields.(stringValue := s))
    case ByteArray(bytes) => Success(fields.(byteArrayValue := bytes))
    case BoolArray(bools) => Success(fields.(boolArrayValue := bools))
    case IntegerArray(ints) =>
      if FitsInt64(ints) then Success(fields.(integerArrayValue := ints)) else Failure(IntegerOverflow)
    case DoubleArray(doubles) => Success(fields.(doubleArrayValue := doubles))
    case StringArray(strings) => Success(fields.(stringArrayValue := strings))
  }

  function ParamValueFromMsg(msg: Option<ValueMsg>): Result<ParameterValue, WireError>
  {
    if msg.None? then Success(NotSet)
    else
      var m := msg.value;
      if m.typ == 0 then Success(NotSet)
      else if m.typ == 1 then Success(BoolValue(m.boolValue))
      else if m.typ == 2 then Success(IntegerValue(m.integerValue))
      else if m.typ == 3 then Success(DoubleValue(m.doubleValue))
      else if m.typ == 4 then Success(StringValue(m.stringValue))
      else if m.typ == 5 then Success(ByteArray(m.byteArrayValue))
      else if m.typ == 6 then Success(BoolArray(m.boolArrayValue))
      else if m.typ == 7 then Success(IntegerArray(m.integerArrayValue))
      else if m.typ == 8 then Success(DoubleArray(m.doubleArrayValue))
      else if m.typ == 9 then Success(StringArray(m.stringArrayValue))
      else Failure(BadTypeTag(m.typ))
  }

  /** The message with every field its tag does not select cleared. */
  function Canonical(m: ValueMsg): ValueMsg
  {
    ValueMsg(
      m.typ,
      m.typ == 1 && m.boolValue,
      if m.typ == 2 then m.integerValue else 0,
      if m.typ == 3 then m.doubleValue else 0.0,
      if m.typ == 4 then m.stringValue else "",
      if m.typ == 5 then m.byteArrayValue else [],
      if m.typ == 6 then m.boolArrayValue else [],
      if m.typ == 7 then m.integerArrayValue else [],
      if m.typ == 8 then m.doubleArrayValue else [],
      if m.typ == 9 then m.stringArrayValue else [])
  }

  /** Decoding an encoded value gives it back; encoding fails exactly on an integer array beyond 64 bits. */
  lemma DecodeEncode(v: ParameterValue)
    ensures ParamValueToMsg(v).Success? <==> Encodable(v)
    ensures Encodable(v) ==> ParamValueFromMsg(Some(ParamValueToMsg(v).value)) == Success(v)
  {
  }

  /** Encoding a decoded message gives its canonical form; decoding fails exactly on an unknown tag. */
  lemma EncodeDecode(m: ValueMsg)
    ensures ParamValueFromMsg(Some(m)).Success? <==> 0 <= m.typ <= 9
    ensures 0 <= m.typ <= 9 ==>
              var v := ParamValueFromMsg(Some(m)).value;
              Encodable(v) && Tag(v.Type()) == m.typ && ParamValueToMsg(v) == Success(Canonical(m))
  {
  }
}
