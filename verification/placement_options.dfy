/**
 * Options of the resource-optimised placement strategy and their validator.
 * The validator checks each property in turn and reports the first failure.
 */
module PlacementOptions {

  datatype Options = Options(
    cpuUsageWeight: real,
    memoryUsageWeight: real,
    availableMemoryWeight: real,
    localSiloPreferenceMargin: real)

  const DefaultCpuUsageWeight: real := 0.4
  const DefaultMemoryUsageWeight: real := 0.4
  const DefaultAvailableMemoryWeight: real := 0.1
  /** Declared as the default margin, but the margin property is never initialised with it. */
  const DefaultLocalSiloPreferenceMargin: real := 0.05

  /** A freshly constructed options object: the margin property keeps its zero initial value. */
  const Defaults: Options := Options(DefaultCpuUsageWeight, DefaultMemoryUsageWeight, DefaultAvailableMemoryWeight, 0.0)

  /** The property a range error names. */
  datatype Property = CpuUsageWeight | MemoryUsageWeight | AvailableMemoryWeight | LocalSiloPreferenceMargin

  /** The configuration errors the validator raises. */
  datatype ConfigurationError = OutOfRange(property: Property) | WeightsDoNotSumToOne

  datatype Validation = Valid | Invalid(error: ConfigurationError)

  predicate InUnitRange(x: real) {
    0.0 <= x <= 1.0
  }

  /** The value of the named property. */
  function PropertyValue(o: Options, p: Property): real {
    match p
    case CpuUsageWeight => o.cpuUsageWeight
    case MemoryUsageWeight => o.memoryUsageWeight
    case AvailableMemoryWeight => o.availableMemoryWeight
    case LocalSiloPreferenceMargin => o.localSiloPreferenceMargin
  }

  /** Every property with a [0, 1] range constraint is within it. */
  predicate AllInRange(o: Options) {
    && InUnitRange(o.cpuUsageWeight)
    && InUnitRange(o.memoryUsageWeight)
    && InUnitRange(o.availableMemoryWeight)
    && InUnitRange(o.localSiloPreferenceMargin)
  }

  /** Source order of the range checks. */
  function CheckOrder(p: Property): nat {
    match p
    case CpuUsageWeight => 0
    case MemoryUsageWeight => 1
    case AvailableMemoryWeight => 2
    case LocalSiloPreferenceMargin => 3
  }

  /** The sum the validator compares with 1: the three weights it knows about. */
  function WeightSum(o: Options): real {
    o.cpuUsageWeight + o.memoryUsageWeight + o.availableMemoryWeight
  }

  /** Validates the options, stopping at the first failing check. */
  function ValidateConfiguration(o: Options): (r: Validation)
    // validation passes exactly when every check passes
    ensures r == Valid <==>
              AllInRange(o) && WeightSum(o) == 1.0
    // a range error names a property that is out of range, and every earlier property is in range
    ensures r.Invalid? && r.error.OutOfRange? ==>
              !InUnitRange(PropertyValue(o, r.error.property)) &&
              forall p: Property :: CheckOrder(p) < CheckOrder(r.error.property) ==> InUnitRange(PropertyValue(o, p))
    // the sum error is raised only after all four range checks passed
    ensures r == Invalid(WeightsDoNotSumToOne) <==>
              AllInRange(o) && WeightSum(o) != 1.0
  {
    if !InUnitRange(o.cpuUsageWeight) then Invalid(OutOfRange(CpuUsageWeight))
    else if !InUnitRange(o.memoryUsageWeight) then Invalid(OutOfRange(MemoryUsageWeight))
    else if !InUnitRange(o.availableMemoryWeight) then Invalid(OutOfRange(AvailableMemoryWeight))
    else if !InUnitRange(o.localSiloPreferenceMargin) then Invalid(OutOfRange(LocalSiloPreferenceMargin))
    else if WeightSum(o) != 1.0 then Invalid(WeightsDoNotSumToOne)
    else Valid
  }

  /** Each weight outside [0, 1] is reported by name when the weights before it are in range. */
  lemma OutOfRangeNamesProperty(o: Options, p: Property)
    requires !InUnitRange(PropertyValue(o, p))
    requires forall q: Property :: CheckOrder(q) < CheckOrder(p) ==> InUnitRange(PropertyValue(o, q))
    ensures ValidateConfiguration(o) == Invalid(OutOfRange(p))
  {
    assert InUnitRange(PropertyValue(o, CpuUsageWeight)) || p == CpuUsageWeight;
    if p != CpuUsageWeight {
      assert CheckOrder(CpuUsageWeight) < CheckOrder(p);
    }
    if CheckOrder(p) > 1 {
      assert CheckOrder(MemoryUsageWeight) < CheckOrder(p);
    }
    if CheckOrder(p) > 2 {
      assert CheckOrder(AvailableMemoryWeight) < CheckOrder(p);
    }
  }

  /** The defaults 0.4 + 0.4 + 0.1 add up to 0.9, so validating them fails the sum check. */
  lemma DefaultsFailSumCheck()
    ensures WeightSum(Defaults) == 0.9
    ensures ValidateConfiguration(Defaults) == Invalid(WeightsDoNotSumToOne)
    ensures Defaults.localSiloPreferenceMargin != DefaultLocalSiloPreferenceMargin
  {
  }
}
