/**
 * The thermostat snapshot the client keeps and refreshes once per poll
 * cycle, and its division into the groups of fields each read refreshes.
 */
module ThermostatState {
  import opened Optional
  import opened Const

  /** Control mode, target percentage and band of the humidifier or the dehumidifier. */
  datatype HumidityControl = HumidityControl(
    controlMode: Option<string>,
    setpoint: Option<int>,
    variance: Option<int>)

  const NoHumidityControl := HumidityControl(None, None, None)

  /**
   * What the device reported, as the snapshot holds it. Temperatures are
   * reals; every other optional field is absent until a read supplies it.
   */
  datatype DeviceData = DeviceData(
    // From the all-states read.
    indoorTemp: Option<real>,
    outdoorTemp: Option<real>,
    hvacMode: Option<string>,
    fanMode: Option<string>,
    overrideActive: bool,
    recoveryActive: bool,
    coolSetpoint: Option<int>,
    heatSetpoint: Option<int>,
    operatingStatus: Option<string>,
    stage: Option<int>,
    event: Option<string>,
    // From the other reads.
    humidity: Option<int>,
    tempScale: string,
    isManualMode: bool,
    operationMode: string,
    relay1Mode: Option<string>,
    relay2Mode: Option<string>,
    relayState: Option<string>,
    hum: HumidityControl,
    dehum: HumidityControl)

  /** The snapshot: the device data and the connection status reported to callers. */
  datatype State = State(data: DeviceData, connected: bool, lastError: Option<string>)

  /** The device data of a freshly created client. */
  const InitialData := DeviceData(
    None, None, None, None, false, false, None, None, None, None, None,
    None, "F", true, "Manual", None, None, None, NoHumidityControl, NoHumidityControl)

  /** The snapshot a freshly created client starts from. */
  const Initial := State(InitialData, false, None)

  /** The fields one read refreshes. */
  datatype Slice =
    | ScaleSlice(tempScale: string)
    | StatesSlice(
        indoorTemp: Option<real>, outdoorTemp: Option<real>, hvacMode: Option<string>,
        fanMode: Option<string>, overrideActive: bool, recoveryActive: bool,
        coolSetpoint: Option<int>, heatSetpoint: Option<int>, operatingStatus: Option<string>,
        stage: Option<int>, event: Option<string>)
    | HumiditySlice(humidity: Option<int>)
    | OperationSlice(isManualMode: bool, operationMode: string)
    | RelayModeSlice(relay1Mode: Option<string>, relay2Mode: Option<string>)
    | ControlSlice(control: HumidityControl)
    | RelayStateSlice(relayState: Option<string>)

  /** The part of the device data that read `r` refreshes. */
  function SliceOf(s: DeviceData, r: Read): Slice {
    match r
    case ReadTempScale => ScaleSlice(s.tempScale)
    case ReadAllStates =>
      StatesSlice(s.indoorTemp, s.outdoorTemp, s.hvacMode, s.fanMode, s.overrideActive,
                  s.recoveryActive, s.coolSetpoint, s.heatSetpoint, s.operatingStatus,
                  s.stage, s.event)
    case ReadHumidity => HumiditySlice(s.humidity)
    case ReadOperationMode => OperationSlice(s.isManualMode, s.operationMode)
    case ReadRelayMode => RelayModeSlice(s.relay1Mode, s.relay2Mode)
    case ReadHumidification => ControlSlice(s.hum)
    case ReadDehumidification => ControlSlice(s.dehum)
    case ReadRelayState => RelayStateSlice(s.relayState)
  }

  /** `t` with the fields read `r` refreshes put back to their values in `s`. */
  function Restore(t: DeviceData, s: DeviceData, r: Read): (u: DeviceData)
    ensures SliceOf(u, r) == SliceOf(s, r)
  {
    match r
    case ReadTempScale => t.(tempScale := s.tempScale)
    case ReadAllStates =>
      t.(indoorTemp := s.indoorTemp, outdoorTemp := s.outdoorTemp, hvacMode := s.hvacMode,
         fanMode := s.fanMode, overrideActive := s.overrideActive, recoveryActive := s.recoveryActive,
         coolSetpoint := s.coolSetpoint, heatSetpoint := s.heatSetpoint,
         operatingStatus := s.operatingStatus, stage := s.stage, event := s.event)
    case ReadHumidity => t.(humidity := s.humidity)
    case ReadOperationMode => t.(isManualMode := s.isManualMode, operationMode := s.operationMode)
    case ReadRelayMode => t.(relay1Mode := s.relay1Mode, relay2Mode := s.relay2Mode)
    case ReadHumidification => t.(hum := s.hum)
    case ReadDehumidification => t.(dehum := s.dehum)
    case ReadRelayState => t.(relayState := s.relayState)
  }

  /**
   * `t` differs from `s` at most in the fields read `r` refreshes: putting
   * those fields back gives `s`.
   */
  predicate OnlySliceChanges(s: DeviceData, t: DeviceData, r: Read) {
    Restore(t, s, r) == s
  }

  /** When only the fields of `r` change, every other read's fields are kept. */
  lemma OtherSlicesKept(s: DeviceData, t: DeviceData, r: Read, o: Read)
    requires OnlySliceChanges(s, t, r) && o != r
    ensures SliceOf(t, o) == SliceOf(s, o)
  {
    var u := Restore(t, s, r);
    assert SliceOf(u, o) == SliceOf(t, o);
  }

  /** `t` holds the same device data as `s`; only the connection status may differ. */
  predicate SameData(s: State, t: State) {
    t.data == s.data
  }

  /** The slices cover all the device data: two values that agree on all of them are equal. */
  lemma SlicesDetermineState(s: DeviceData, t: DeviceData)
    requires forall r: Read :: SliceOf(s, r) == SliceOf(t, r)
    ensures s == t
  {
    assert SliceOf(s, ReadTempScale) == SliceOf(t, ReadTempScale);
    assert SliceOf(s, ReadAllStates) == SliceOf(t, ReadAllStates);
    assert SliceOf(s, ReadHumidity) == SliceOf(t, ReadHumidity);
    assert SliceOf(s, ReadOperationMode) == SliceOf(t, ReadOperationMode);
    assert SliceOf(s, ReadRelayMode) == SliceOf(t, ReadRelayMode);
    assert SliceOf(s, ReadHumidification) == SliceOf(t, ReadHumidification);
    assert SliceOf(s, ReadDehumidification) == SliceOf(t, ReadDehumidification);
    assert SliceOf(s, ReadRelayState) == SliceOf(t, ReadRelayState);
  }
}
