/**
 * The constants table of the integration: connection defaults, temperature
 * and humidity limits, the protocol's read and write verbs, its response
 * prefixes and the tokens it exchanges, with the relationships between them
 * that the client relies on.
 */
module Const {
  import opened PyText

  // Connection defaults (seconds, except the port).
  const DefaultPort := 10001
  const ConnectionTimeout := 10
  const CommandTimeout := 5
  const UpdateInterval := 30

  // Temperature limits.
  const MinTempHeat := 35
  const MaxTempHeat := 89
  const MinTempCool := 42
  const MaxTempCool := 90
  const MinTemp := 35
  const MaxTemp := 90

  // Humidity limits (percent).
  const MinHumiditySetpoint := 10
  const MaxHumiditySetpoint := 90
  const MinHumidityVariance := 2
  const MaxHumidityVariance := 10

  // Read verbs.
  const CmdLogin := "WMLS1D"
  const CmdGetTempScale := "RTS1"
  const CmdGetAllStates := "RAS1"
  const CmdGetHumidity := "RRHS1"
  const CmdGetOperationMode := "RNS1"
  const CmdGetRelayMode := "RMRF1"
  const CmdGetHumidification := "RMHS1"
  const CmdGetDehumidification := "RMDHS1"
  const CmdGetRelayState := "RRS1"

  // Write verbs used in manual mode.
  const CmdSetModeManual := "WNMS1D"
  const CmdSetFanManual := "WNFM1D"
  const CmdSetCoolManual := "WNCD1D"
  const CmdSetHeatManual := "WNHD1D"

  // Write verbs used in schedule mode.
  const CmdSetModeSchedule := "WMS1D"
  const CmdSetFanSchedule := "WFM1D"
  const CmdSetCoolSchedule := "WOC1D"
  const CmdSetHeatSchedule := "WOH1D"

  // Write verbs independent of the mode.
  const CmdSetTempScale := "WTS1D"
  const CmdSetRelayMode := "WMRF1D"
  const CmdSetHumidification := "WMHS1D"
  const CmdSetDehumidification := "WMDHS1D"

  // HVAC and fan modes.
  const HvacModeOff := "OFF"
  const HvacModeHeat := "HEAT"
  const HvacModeCool := "COOL"
  const HvacModeAuto := "AUTO"
  const FanModeAuto := "AUTO"
  const FanModeOn := "ON"

  // Payload of the operation-mode read: manual is "ON", schedule is "OFF".
  const OperationModeManual := "ON"
  const OperationModeSchedule := "OFF"

  // Humidity control codes.
  const HumidityWithHeating := "WH"
  const HumidityIndependentHeating := "IH"
  const HumidityWithCooling := "WC"
  const HumidityIndependentCooling := "IC"

  // Humidity relay modes.
  const RelayModeOff := "OFF"
  const RelayModeHum := "HUM"
  const RelayModeDehum := "DEHUM"

  // Response prefixes.
  const RespLoginOk := "OK"
  const RespTempScale := "RTS1:"
  const RespAllStates := "RAS1:"
  const RespHumidity := "RRHS1:"
  const RespOperationMode := "RNS1:"
  const RespRelayMode := "RMRF1:"
  const RespHumidification := "RMHS1:"
  const RespDehumidification := "RMDHS1:"
  const RespRelayState := "RRS1:"

  /** The eight reads a poll cycle issues. */
  datatype Read =
    | ReadTempScale
    | ReadAllStates
    | ReadHumidity
    | ReadOperationMode
    | ReadRelayMode
    | ReadHumidification
    | ReadDehumidification
    | ReadRelayState

  /** The verb that requests a read. */
  function Verb(r: Read): string {
    match r
    case ReadTempScale => CmdGetTempScale
    case ReadAllStates => CmdGetAllStates
    case ReadHumidity => CmdGetHumidity
    case ReadOperationMode => CmdGetOperationMode
    case ReadRelayMode => CmdGetRelayMode
    case ReadHumidification => CmdGetHumidification
    case ReadDehumidification => CmdGetDehumidification
    case ReadRelayState => CmdGetRelayState
  }

  /** The prefix a response to the read must carry to be accepted. */
  function Prefix(r: Read): string {
    match r
    case ReadTempScale => RespTempScale
    case ReadAllStates => RespAllStates
    case ReadHumidity => RespHumidity
    case ReadOperationMode => RespOperationMode
    case ReadRelayMode => RespRelayMode
    case ReadHumidification => RespHumidification
    case ReadDehumidification => RespDehumidification
    case ReadRelayState => RespRelayState
  }

  /** The order in which a poll cycle issues its reads. */
  const PollOrder: seq<Read> := [
    ReadTempScale, ReadAllStates, ReadHumidity, ReadOperationMode,
    ReadRelayMode, ReadHumidification, ReadDehumidification, ReadRelayState
  ]

  /** The settings whose write verb depends on manual versus schedule mode. */
  datatype Setting = ModeSetting | FanSetting | CoolSetting | HeatSetting

  function ManualVerb(s: Setting): string {
    match s
    case ModeSetting => CmdSetModeManual
    case FanSetting => CmdSetFanManual
    case CoolSetting => CmdSetCoolManual
    case HeatSetting => CmdSetHeatManual
  }

  function ScheduleVerb(s: Setting): string {
    match s
    case ModeSetting => CmdSetModeSchedule
    case FanSetting => CmdSetFanSchedule
    case CoolSetting => CmdSetCoolSchedule
    case HeatSetting => CmdSetHeatSchedule
  }

  /** Every response prefix is its read verb followed by a colon. */
  lemma PrefixIsVerbColon(r: Read)
    ensures Prefix(r) == Verb(r) + ":"
  {
  }

  /** No verb contains a colon, so a prefix's only colon is its last character. */
  lemma VerbHasNoColon(r: Read)
    ensures ':' !in Verb(r)
    ensures |Prefix(r)| > 0 && ':' !in Prefix(r)[..|Prefix(r)| - 1]
  {
    PrefixIsVerbColon(r);
    assert Prefix(r)[..|Prefix(r)| - 1] == Verb(r);
  }

  /** No read's response prefix starts another read's response prefix. */
  lemma PrefixesPrefixFree(a: Read, b: Read)
    requires StartsWith(Prefix(a), Prefix(b))
    ensures a == b
  {
    PrefixIsVerbColon(a);
    PrefixIsVerbColon(b);
    var pa, pb := Prefix(a), Prefix(b);
    assert pa[|pb| - 1] == ':';
    assert pa[..|pa| - 1] == Verb(a);
    VerbHasNoColon(a);
    assert pa == pb;
    match a
    case ReadTempScale =>
    case ReadAllStates =>
    case ReadHumidity =>
    case ReadOperationMode =>
    case ReadRelayMode =>
    case ReadHumidification =>
    case ReadDehumidification =>
    case ReadRelayState =>
  }

  /**
   * A response line can carry the prefix of at most one read, so accepting a
   * line for one read never accepts it for another.
   */
  lemma PrefixesUnambiguous(a: Read, b: Read, line: string)
    requires StartsWith(line, Prefix(a)) && StartsWith(line, Prefix(b))
    ensures a == b
  {
    if |Prefix(a)| >= |Prefix(b)| {
      assert Prefix(a)[..|Prefix(b)|] == line[..|Prefix(b)|];
      PrefixesPrefixFree(a, b);
    } else {
      assert Prefix(b)[..|Prefix(a)|] == line[..|Prefix(a)|];
      PrefixesPrefixFree(b, a);
    }
  }

  /** A poll cycle issues each of the eight reads exactly once. */
  lemma PollOrderCoversReads()
    ensures |PollOrder| == 8
    ensures forall r: Read :: r in PollOrder
    ensures forall i, j :: 0 <= i < j < |PollOrder| ==> PollOrder[i] != PollOrder[j]
  {
    forall r: Read ensures r in PollOrder {
      var i := match r
        case ReadTempScale => 0
        case ReadAllStates => 1
        case ReadHumidity => 2
        case ReadOperationMode => 3
        case ReadRelayMode => 4
        case ReadHumidification => 5
        case ReadDehumidification => 6
        case ReadRelayState => 7;
      assert PollOrder[i] == r;
    }
  }

  /**
   * For each dual-verb setting the manual verb differs from the schedule
   * verb; exactly the manual verbs begin with `WN`.
   */
  lemma ManualAndScheduleVerbsDiffer(s: Setting)
    ensures ManualVerb(s) != ScheduleVerb(s)
    ensures StartsWith(ManualVerb(s), "WN")
    ensures !StartsWith(ScheduleVerb(s), "WN")
  {
    assert ScheduleVerb(s)[..2][1] != 'N';
  }

  /** The manual token of the operation-mode read differs from the schedule token. */
  lemma OperationModeTokensDiffer()
    ensures OperationModeManual != OperationModeSchedule
  {
  }

  /** The humidity limits form non-empty ranges inside 0..100 percent. */
  lemma HumidityLimitsOrdered()
    ensures 0 <= MinHumiditySetpoint <= MaxHumiditySetpoint <= 100
    ensures 0 < MinHumidityVariance <= MaxHumidityVariance
  {
  }

  /** The four humidity control codes are pairwise distinct, and so are the three relay modes. */
  lemma CodesDistinct()
    ensures |{HumidityWithHeating, HumidityIndependentHeating, HumidityWithCooling, HumidityIndependentCooling}| == 4
    ensures |{RelayModeOff, RelayModeHum, RelayModeDehum}| == 3
  {
  }

  /** The overall temperature limits are the outermost heating and cooling limits. */
  lemma TemperatureLimitsConsistent()
    ensures MinTemp == MinTempHeat <= MinTempCool
    ensures MaxTemp == MaxTempCool >= MaxTempHeat
    ensures MinTempHeat < MaxTempHeat && MinTempCool < MaxTempCool
  {
  }
}
