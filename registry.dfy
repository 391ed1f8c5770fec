/** The parameter registry: which (group, id) pairs name a field of the
    parameter bank, the field's value type, its place in the bank and its
    array size, and the byte width belonging to each value type.

    The bank is a flat byte image. Its first byte is ForceDefaultParameters
    and the next four hold ParametersSize (a uint32, little-endian); the
    registered fields follow, packed, in declaration order, with the
    controller's unregistered velocity-controller gains between the
    controller and estimator groups. */
module Registry {
  import opened Wire

  /** lspc::ParameterLookup::ValueType_t */
  datatype ValueType = Bool | Float | UInt8 | UInt16 | UInt32 | Unknown

  /** The valueType byte carried in Get replies and Set requests. */
  function Code(t: ValueType): (r: byte)
    requires t != Unknown
  {
    match t
    case Bool => 0
    case Float => 1
    case UInt8 => 2
    case UInt16 => 3
    case UInt32 => 4
  }

  /** The copy length chosen by the if/else chain on the value type. */
  function Width(t: ValueType): (r: nat)
    ensures t == Unknown <==> r == 0
    ensures r <= 4
  {
    match t
    case Bool => 1
    case Float => 4
    case UInt8 => 1
    case UInt16 => 2
    case UInt32 => 4
    case Unknown => 0
  }

  /** Bank layout. */
  const FORCE_DEFAULT_OFFSET: nat := 0
  const PARAMETERS_SIZE_OFFSET: nat := 1
  const HEADER_LENGTH: nat := 5
  const PARAMETERS_LENGTH: nat := 65

  /** Group codes (lspc::ParameterLookup::type_t). */
  const DEBUG: byte := 0
  const BEHAVIOURAL: byte := 1
  const CONTROLLER: byte := 2
  const ESTIMATOR: byte := 3
  const MODEL: byte := 4
  const TEST: byte := 5

  /** Id of controller.mode within the controller group. */
  const CONTROLLER_MODE: byte := 1

  /** What LookupParameter hands back through its three out-parameters:
      the value type, the field pointer (an offset into the bank, None for
      the null pointer) and the array size. */
  datatype ParamRef = ParamRef(valueType: ValueType, field: Option<nat>, arraySize: byte)
  {
    predicate Known() { valueType != Unknown }
    /** Number of bytes the field occupies. */
    function Length(): nat { arraySize * Width(valueType) }
  }

  function Field(t: ValueType, offset: nat): ParamRef
  {
    ParamRef(t, Some(offset), 1)
  }

  const NotFound: ParamRef := ParamRef(Unknown, None, 1)

  /** Parameters::LookupParameter */
  function LookupParameter(group: byte, id: byte): (r: ParamRef)
    ensures r.arraySize == 1
    ensures !r.Known() <==> r.field == None
    ensures r.Known() ==> HEADER_LENGTH <= r.field.value && r.field.value + r.Length() <= PARAMETERS_LENGTH
    ensures group !in {DEBUG, BEHAVIOURAL, CONTROLLER, ESTIMATOR, MODEL, TEST} ==> r == NotFound
  {
    if group == DEBUG then
      match id
      case 0 => Field(Bool, 5)    // EnableLogOutput
      case 1 => Field(Bool, 6)    // EnableRawSensorOutput
      case _ => NotFound
    else if group == TEST then
      match id
      case 0 => Field(Float, 57)  // tmp
      case 1 => Field(Float, 61)  // tmp2
      case _ => NotFound
    else if group == BEHAVIOURAL then
      match id
      case 0 => Field(Bool, 7)    // IndependentHeading
      case 1 => Field(Bool, 8)    // YawVelocityBraking
      case 2 => Field(Bool, 9)    // StepTestEnabled
      case 3 => Field(Bool, 10)   // VelocityControllerEnabled
      case 4 => Field(Bool, 11)   // JoystickVelocityControl
      case _ => NotFound
    else if group == CONTROLLER then
      match id
      case 0 => Field(Float, 12)  // SampleRate
      case 1 => Field(UInt8, 16)  // mode
      case 2 => Field(UInt8, 17)  // type
      case 3 => Field(Bool, 18)   // EnableTorqueLPF
      case _ => NotFound
    else if group == ESTIMATOR then
      match id
      case 0 => Field(Float, 35)  // SampleRate
      case 1 => Field(Bool, 39)   // EnableSensorLPFfilters
      case 2 => Field(Bool, 40)   // EnableSoftwareLPFfilters
      case 3 => Field(Bool, 41)   // CreateQdotFromQDifference
      case 4 => Field(Bool, 42)   // UseMadgwick
      case 5 => Field(Bool, 43)   // UseVelocityEstimator
      case 6 => Field(Bool, 44)   // EstimateCOM
      case _ => NotFound
    else if group == MODEL then
      match id
      case 0 => Field(Float, 45)  // l
      case 1 => Field(Float, 49)  // Mk
      case 2 => Field(Float, 53)  // Mb
      case _ => NotFound
    else
      NotFound
  }

  /** Byte range [lo, hi) of a registered field. */
  function Lo(r: ParamRef): nat
    requires r.Known() && r.field.Some?
  {
    r.field.value
  }

  function Hi(r: ParamRef): nat
    requires r.Known() && r.field.Some?
  {
    r.field.value + r.Length()
  }

  /** Two different registered parameters never share a byte of the bank,
      so setting one of them cannot change another. */
  lemma FieldsDisjoint(g1: byte, i1: byte, g2: byte, i2: byte)
    requires LookupParameter(g1, i1).Known() && LookupParameter(g2, i2).Known()
    requires (g1, i1) != (g2, i2)
    ensures var a, b := LookupParameter(g1, i1), LookupParameter(g2, i2);
            Hi(a) <= Lo(b) || Hi(b) <= Lo(a)
  {
  }

  /** ForceDefaultParameters, the bank's first byte, read as a C++ bool. */
  predicate ForceDefault(bank: seq<byte>)
    requires |bank| == PARAMETERS_LENGTH
  {
    bank[FORCE_DEFAULT_OFFSET] != 0
  }

  /** ParametersSize, the uint32 stored after ForceDefaultParameters. */
  function StoredSize(bank: seq<byte>): uint32
    requires |bank| == PARAMETERS_LENGTH
  {
    DecodeLE32(bank[PARAMETERS_SIZE_OFFSET..HEADER_LENGTH])
  }

  /** The assignment `ParametersSize = n` on a bank. */
  function WithStoredSize(bank: seq<byte>, n: uint32): (r: seq<byte>)
    requires |bank| == PARAMETERS_LENGTH
    ensures |r| == PARAMETERS_LENGTH
    ensures StoredSize(r) == n
    ensures r[FORCE_DEFAULT_OFFSET] == bank[FORCE_DEFAULT_OFFSET] && r[HEADER_LENGTH..] == bank[HEADER_LENGTH..]
  {
    var r := bank[..PARAMETERS_SIZE_OFFSET] + EncodeLE32(n) + bank[HEADER_LENGTH..];
    assert r[PARAMETERS_SIZE_OFFSET..HEADER_LENGTH] == EncodeLE32(n);
    LE32RoundTrip(n);
    r
  }

  /** Storing the size a bank already records changes nothing. */
  lemma WithStoredSizeIdempotent(bank: seq<byte>)
    requires |bank| == PARAMETERS_LENGTH
    requires StoredSize(bank) == PARAMETERS_LENGTH
    ensures WithStoredSize(bank, PARAMETERS_LENGTH) == bank
  {
    var r := WithStoredSize(bank, PARAMETERS_LENGTH);
    var s := bank[PARAMETERS_SIZE_OFFSET..HEADER_LENGTH];
    assert DecodeLE32(s) == PARAMETERS_LENGTH;
    assert s == EncodeLE32(PARAMETERS_LENGTH);
    assert r[PARAMETERS_SIZE_OFFSET..HEADER_LENGTH] == s;
    assert r == bank[..PARAMETERS_SIZE_OFFSET] + s + bank[HEADER_LENGTH..];
  }
}
