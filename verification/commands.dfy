/**
 * Write commands: checking the argument, choosing the verb, assembling the
 * command text, and deciding whether the device's answer confirms the write.
 */
module Commands {
  import opened Optional
  import opened PyText
  import opened PyNumbers
  import opened Const
  import opened ThermostatState
  import opened Codec

  /**
   * What a setter makes of its arguments: nothing sent because the argument
   * is not accepted, an exception raised before anything is sent, or the
   * command text with the value the answer must confirm, if any.
   */
  datatype Built =
    | Refused
    | Raise(error: string)
    | Command(text: string, expected: Option<string>)

  /**
   * A command the device can echo: it starts with the `W` of a write verb,
   * holds no colon, and its confirmed value is already trimmed.
   */
  predicate WellBuilt(b: Built) {
    b.Command? ==>
      && |b.text| > 0 && b.text[0] == 'W'
      && ':' !in b.text
      && (b.expected.Some? ==> Strip(b.expected.value) == b.expected.value)
  }

  const HvacModes: set<string> := {HvacModeOff, HvacModeHeat, HvacModeCool, HvacModeAuto}
  const FanModes: set<string> := {FanModeAuto, FanModeOn}
  const RelayModes: set<string> := {RelayModeOff, RelayModeHum, RelayModeDehum}

  /** The write verb of a dual-verb setting: the manual verb exactly when the thermostat is in manual mode. */
  function SelectVerb(setting: Setting, isManual: bool): (verb: string)
    ensures StartsWith(verb, "WN") <==> isManual
    ensures verb == ManualVerb(setting) || verb == ScheduleVerb(setting)
    ensures ':' !in verb && verb[0] == 'W'
  {
    ManualAndScheduleVerbsDiffer(setting);
    if isManual then ManualVerb(setting) else ScheduleVerb(setting)
  }

  /** A token without whitespace at its ends is its own `strip()`, and a token free of colons keeps the command free of them. */
  lemma TokenEchoable(verb: string, token: string)
    requires |verb| > 0 && verb[0] == 'W'
    requires ':' !in verb && ':' !in token
    requires token == [] || (!IsSpace(token[0]) && !IsSpace(token[|token| - 1]))
    ensures |verb + token| > 0 && (verb + token)[0] == 'W'
    ensures ':' !in verb + token
    ensures Strip(token) == token
  {
    StripTrimmed(token);
  }

  /** `async_set_hvac_mode`: the mode, upper-cased, must be OFF, HEAT, COOL or AUTO. */
  function BuildHvacMode(mode: string, isManual: bool): (b: Built)
    ensures !b.Raise? && WellBuilt(b)
    ensures b.Refused? <==> Upper(mode) !in HvacModes
    ensures b.Command? ==> b.text == SelectVerb(ModeSetting, isManual) + Upper(mode)
    ensures b.Command? ==> b.expected == Some(Upper(mode))
  {
    var m := Upper(mode);
    if m !in HvacModes then Refused
    else
      TokenEchoable(SelectVerb(ModeSetting, isManual), m);
      Command(SelectVerb(ModeSetting, isManual) + m, Some(m))
  }

  /** `async_set_fan_mode`: the mode, upper-cased, must be AUTO or ON. */
  function BuildFanMode(mode: string, isManual: bool): (b: Built)
    ensures !b.Raise? && WellBuilt(b)
    ensures b.Refused? <==> Upper(mode) !in FanModes
    ensures b.Command? ==> b.text == SelectVerb(FanSetting, isManual) + Upper(mode)
    ensures b.Command? ==> b.expected == Some(Upper(mode))
  {
    var m := Upper(mode);
    if m !in FanModes then Refused
    else
      TokenEchoable(SelectVerb(FanSetting, isManual), m);
      Command(SelectVerb(FanSetting, isManual) + m, Some(m))
  }

  /** A setpoint write: the verb followed by the decimal temperature, which the answer must confirm. */
  function BuildSetpoint(setting: Setting, temperature: int, isManual: bool): (b: Built)
    requires setting == CoolSetting || setting == HeatSetting
    ensures b.Command? && WellBuilt(b)
    ensures b.text == SelectVerb(setting, isManual) + ShowInt(temperature)
    ensures b.expected == Some(ShowInt(temperature))
  {
    ShowIntChars(temperature);
    TokenEchoable(SelectVerb(setting, isManual), ShowInt(temperature));
    Command(SelectVerb(setting, isManual) + ShowInt(temperature), Some(ShowInt(temperature)))
  }

  /** `async_set_cool_setpoint`: no range check; any integer is sent. */
  function BuildCoolSetpoint(temperature: int, isManual: bool): (b: Built)
    ensures b.Command? && WellBuilt(b)
    ensures StartsWith(b.text, "WN") <==> isManual
    ensures b.text == SelectVerb(CoolSetting, isManual) + ShowInt(temperature)
    ensures b.expected == Some(ShowInt(temperature))
  {
    BuildSetpoint(CoolSetting, temperature, isManual)
  }

  /** `async_set_heat_setpoint`: no range check; any integer is sent. */
  function BuildHeatSetpoint(temperature: int, isManual: bool): (b: Built)
    ensures b.Command? && WellBuilt(b)
    ensures StartsWith(b.text, "WN") <==> isManual
    ensures b.text == SelectVerb(HeatSetting, isManual) + ShowInt(temperature)
    ensures b.expected == Some(ShowInt(temperature))
  {
    BuildSetpoint(HeatSetting, temperature, isManual)
  }

  /**
   * `async_set_temperature_scale`: only the first character of the
   * upper-cased argument is used and it must be F or C; an empty argument
   * raises `IndexError` before anything is sent.
   */
  function BuildTempScale(scale: string): (b: Built)
    ensures b.Raise? <==> scale == []
    ensures b.Refused? <==> scale != [] && UpperChar(scale[0]) != 'F' && UpperChar(scale[0]) != 'C'
    ensures b.Command? ==> b.text == CmdSetTempScale + [UpperChar(scale[0])]
    ensures b.Command? ==> b.expected == Some([UpperChar(scale[0])])
    ensures WellBuilt(b)
  {
    if scale == [] then Raise("IndexError: string index out of range")
    else
      var c := Upper(scale)[0];
      if c != 'F' && c != 'C' then Refused
      else
        TokenEchoable(CmdSetTempScale, [c]);
        Command(CmdSetTempScale + [c], Some([c]))
  }

  /** `async_set_relay_mode`: the mode, upper-cased, must be OFF, HUM or DEHUM; no value is confirmed. */
  function BuildRelayMode(mode: string): (b: Built)
    ensures !b.Raise? && WellBuilt(b)
    ensures b.Refused? <==> Upper(mode) !in RelayModes
    ensures b.Command? ==> b.text == CmdSetRelayMode + Upper(mode) && b.expected == None
  {
    var m := Upper(mode);
    if m !in RelayModes then Refused
    else
      TokenEchoable(CmdSetRelayMode, m);
      Command(CmdSetRelayMode + m, None)
  }

  function Max(a: int, b: int): int {
    if a >= b then a else b
  }

  function Min(a: int, b: int): int {
    if a <= b then a else b
  }

  /** `max(10, min(90, setpoint))`. */
  function ClampSetpoint(setpoint: int): (r: int)
    ensures MinHumiditySetpoint <= r <= MaxHumiditySetpoint
    ensures MinHumiditySetpoint <= setpoint <= MaxHumiditySetpoint ==> r == setpoint
    ensures setpoint < MinHumiditySetpoint ==> r == MinHumiditySetpoint
    ensures setpoint > MaxHumiditySetpoint ==> r == MaxHumiditySetpoint
  {
    Max(10, Min(90, setpoint))
  }

  /** `max(2, min(10, variance))`. */
  function ClampVariance(variance: int): (r: int)
    ensures MinHumidityVariance <= r <= MaxHumidityVariance
    ensures MinHumidityVariance <= variance <= MaxHumidityVariance ==> r == variance
    ensures variance < MinHumidityVariance ==> r == MinHumidityVariance
    ensures variance > MaxHumidityVariance ==> r == MaxHumidityVariance
  {
    Max(2, Min(10, variance))
  }

  /** The control code the humidifier runs under: independent of heating or with heating. */
  function HumidifierCode(independent: bool): string {
    if independent then HumidityIndependentHeating else HumidityWithHeating
  }

  /** The control code the dehumidifier runs under: independent of cooling or with cooling. */
  function DehumidifierCode(independent: bool): string {
    if independent then HumidityIndependentCooling else HumidityWithCooling
  }

  /** A humidity-control command text: verb, then `code,setpoint,variance` with both numbers clamped. */
  function ControlCommand(verb: string, code: string, setpoint: int, variance: int): (text: string)
    requires |verb| > 0 && verb[0] == 'W' && ':' !in verb && ':' !in code
    ensures |text| > 0 && text[0] == 'W' && ':' !in text
  {
    var sp := ShowInt(ClampSetpoint(setpoint));
    var va := ShowInt(ClampVariance(variance));
    ShowIntChars(ClampSetpoint(setpoint));
    ShowIntChars(ClampVariance(variance));
    assert [code, sp, va][1..] == [sp, va] && [sp, va][1..] == [va];
    assert Join([sp, va], ',') == sp + [','] + va;
    assert Join([code, sp, va], ',') == code + [','] + (sp + [','] + va);
    verb + RenderControl(code, ClampSetpoint(setpoint), ClampVariance(variance))
  }

  /**
   * `async_set_humidification`: never refused; the setpoint is clamped to
   * 10..90 and the variance to 2..10, and no value is confirmed.
   */
  function BuildHumidification(independent: bool, setpoint: int, variance: int): (b: Built)
    ensures b.Command? && b.expected == None && WellBuilt(b)
    ensures StartsWith(b.text, CmdSetHumidification)
    ensures b.text == ControlCommand(CmdSetHumidification, HumidifierCode(independent), setpoint, variance)
  {
    Command(ControlCommand(CmdSetHumidification, HumidifierCode(independent), setpoint, variance), None)
  }

  /** `async_set_dehumidification`: as humidification, with the dehumidifier's verb and codes. */
  function BuildDehumidification(independent: bool, setpoint: int, variance: int): (b: Built)
    ensures b.Command? && b.expected == None && WellBuilt(b)
    ensures StartsWith(b.text, CmdSetDehumidification)
    ensures b.text == ControlCommand(CmdSetDehumidification, DehumidifierCode(independent), setpoint, variance)
  {
    Command(ControlCommand(CmdSetDehumidification, DehumidifierCode(independent), setpoint, variance), None)
  }

  /**
   * The settings a humidity write sends are the ones the matching read
   * reports back: the payload after the verb parses to the code and the
   * clamped setpoint and variance.
   */
  lemma ControlCommandReadsBack(c: HumidityControl, verb: string, code: string, setpoint: int, variance: int)
    requires |verb| > 0 && verb[0] == 'W' && ':' !in verb && ':' !in code
    requires IsToken(code)
    ensures ControlCommand(verb, code, setpoint, variance)[|verb|..] == RenderControl(code, ClampSetpoint(setpoint), ClampVariance(variance))
    ensures ParseControl(c, ControlCommand(verb, code, setpoint, variance)[|verb|..])
         == HumidityControl(Some(code), Some(ClampSetpoint(setpoint)), Some(ClampVariance(variance)))
  {
    var payload := RenderControl(code, ClampSetpoint(setpoint), ClampVariance(variance));
    assert (verb + payload)[|verb|..] == payload;
    ControlRoundTrip(c, code, ClampSetpoint(setpoint), ClampVariance(variance));
  }

  /**
   * `_validate_write_response`: an answer confirms the write when it arrived,
   * holds a colon, starts with the command's text before its first `D`, and,
   * when a value is expected, holds exactly that value (trimmed) after the
   * first colon.
   */
  function ValidateWriteResponse(command: string, response: Option<string>, expected: Option<string>): (ok: bool)
    ensures response.None? ==> !ok
    ensures response.Some? && ':' !in response.value ==> !ok
    ensures ok <==>
      && response.Some?
      && ':' in response.value
      && StartsWith(response.value, BeforeFirst(command, 'D'))
      && (expected.Some? ==> Strip(AfterFirst(response.value, ':')) == expected.value)
  {
    if response.None? then false
    else if ':' !in response.value then false
    else if !StartsWith(response.value, BeforeFirst(command, 'D')) then false
    else if expected.Some? && Strip(AfterFirst(response.value, ':')) != expected.value then false
    else true
  }

  /** In `text + ":" + value` with no colon in `text`, the text after the first colon is `value`. */
  lemma AfterFirstColon(text: string, value: string)
    requires ':' !in text
    ensures ':' in text + ":" + value
    ensures AfterFirst(text + ":" + value, ':') == value
  {
    var s := text + ":" + value;
    assert s[|text|] == ':';
    var i := IndexOf(s, ':');
    assert s[|text| + 1..] == value;
  }

  /** The answer `{command}:{value}` with the expected value confirms a well-built command. */
  lemma EchoAccepted(b: Built)
    requires b.Command? && WellBuilt(b)
    ensures ValidateWriteResponse(b.text, Some(b.text + ":" + b.expected.GetOr("")), b.expected)
  {
    var v := b.expected.GetOr("");
    AfterFirstColon(b.text, v);
    var r := BeforeFirst(b.text, 'D');
    assert (b.text + ":" + v)[..|r|] == b.text[..|r|];
  }

  /**
   * The command echoed with some value, `{command}:{value}`, confirms the
   * write exactly when no value is expected or the value, trimmed, is the
   * expected one.
   */
  lemma AcceptedAnswerCarriesValue(b: Built, value: string)
    requires b.Command? && ':' !in b.text
    ensures ValidateWriteResponse(b.text, Some(b.text + ":" + value), b.expected)
        <==> (b.expected.Some? ==> Strip(value) == b.expected.value)
  {
    AfterFirstColon(b.text, value);
    EchoStartsWithVerb(b.text, value);
  }

  lemma EchoStartsWithVerb(text: string, value: string)
    ensures StartsWith(text + ":" + value, BeforeFirst(text, 'D'))
  {
    var r := BeforeFirst(text, 'D');
    assert (text + ":" + value)[..|r|] == text[..|r|];
  }

  /**
   * The dehumidification command's text before its first `D` is just `WM`,
   * so the check accepts, for instance, the relay-mode write's answer.
   */
  lemma DehumidificationCheckIsLoose(independent: bool, setpoint: int, variance: int)
    ensures BeforeFirst(BuildDehumidification(independent, setpoint, variance).text, 'D') == "WM"
    ensures ValidateWriteResponse(BuildDehumidification(independent, setpoint, variance).text, Some("WMRF1D:OFF"), None)
  {
    var text := BuildDehumidification(independent, setpoint, variance).text;
    var r := BeforeFirst(text, 'D');
    assert text[..|CmdSetDehumidification|] == CmdSetDehumidification;
    assert text[0] == 'W' && text[1] == 'M' && text[2] == 'D';
    assert r == text[..2];
  }
}
