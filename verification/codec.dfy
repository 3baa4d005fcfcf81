/**
 * Decoding of read responses: each payload, together with the previous
 * snapshot, determines the next snapshot. Parsing never fails as a whole;
 * a malformed field either keeps its previous value or becomes absent,
 * field by field, exactly as the client does.
 */
module Codec {
  import opened Optional
  import opened PyText
  import opened PyNumbers
  import opened Const
  import opened ThermostatState

  /** The tokens the device sends for "no temperature reading" (after upper-casing). */
  predicate IsNoReading(t: string) {
    t == "NA" || t == "--" || t == "" || t == "N/A"
  }

  /** Upper-casing keeps digits where they are and adds none. */
  lemma HasDigitUpper(s: string)
    requires HasDigit(Upper(s))
    ensures HasDigit(s)
  {
    var j :| 0 <= j < |s| && IsDigit(Upper(s)[j]);
    assert IsDigit(s[j]);
  }

  /**
   * A temperature token: trimmed and upper-cased, a no-reading token is
   * absent, otherwise it is read as a float and is absent when that fails.
   * A token with no digit is always absent.
   */
  function ParseTemp(token: string): (r: Option<real>)
    ensures r.Some? ==> HasDigit(token)
    ensures IsNoReading(Upper(Strip(token))) ==> r.None?
    ensures !IsNoReading(Upper(Strip(token))) ==> r == ParseFloat(Upper(Strip(token)))
  {
    var t := Upper(Strip(token));
    if IsNoReading(t) then None
    else
      var x := ParseFloat(t);
      if x.Some? then
        HasDigitUpper(Strip(token));
        HasDigitStrip(token);
        x
      else x
  }

  /** A token with no whitespace at its ends and no lower-case letter is left alone by `strip().upper()`. */
  lemma NormalToken(t: string)
    requires t == [] || (!IsSpace(t[0]) && !IsSpace(t[|t| - 1]))
    requires forall i :: 0 <= i < |t| ==> !('a' <= t[i] <= 'z')
    ensures Upper(Strip(t)) == t
  {
    StripTrimmed(t);
    UpperOfUpper(t);
  }

  /** An integer temperature reads back as itself. */
  lemma ParseTempInteger(n: int)
    ensures ParseTemp(ShowInt(n)) == Some(n as real)
  {
    ShowIntChars(n);
    var s := ShowInt(n);
    assert IsDigit(s[|s| - 1]);
    assert !IsNoReading(s);
    ParseFloatShowInt(n);
  }

  /** Blanks around a temperature token change nothing. */
  lemma ParseTempPadded(pre: string, token: string, post: string)
    requires forall i :: 0 <= i < |pre| ==> IsSpace(pre[i])
    requires forall i :: 0 <= i < |post| ==> IsSpace(post[i])
    ensures ParseTemp(pre + token + post) == ParseTemp(token)
  {
    StripPadded(pre, token, post);
  }

  /** The temperature read ignores letter case. */
  lemma ParseTempIgnoresCase(token: string)
    ensures ParseTemp(Upper(token)) == ParseTemp(token)
  {
    StripUpper(token);
    UpperIdempotent(Strip(token));
  }

  /** An integer temperature reads back as itself, with or without blanks around it. */
  lemma ParsePaddedTempInteger(pre: string, n: int, post: string)
    requires forall i :: 0 <= i < |pre| ==> IsSpace(pre[i])
    requires forall i :: 0 <= i < |post| ==> IsSpace(post[i])
    ensures ParseTemp(pre + ShowInt(n) + post) == Some(n as real)
  {
    ParseTempPadded(pre, ShowInt(n), post);
    ParseTempInteger(n);
  }

  /** A decimal temperature such as `72.5` reads back as the number it spells. */
  lemma ParseTempDecimal(whole: string, frac: string)
    requires IsDigits(whole) && AllDigits(frac)
    ensures ParseTemp(whole + "." + frac) == Some(DecimalValue(whole, frac))
  {
    var m := whole + "." + frac;
    DecimalTrimmed(whole, frac);
    DecimalUpper(whole, frac);
    assert m[0] == whole[0];
    ParseFloatDecimal(whole, frac);
  }

  /** A negative decimal temperature such as `-3.5` reads back as the number it spells. */
  lemma ParseTempNegativeDecimal(whole: string, frac: string)
    requires IsDigits(whole) && AllDigits(frac)
    ensures ParseTemp("-" + whole + "." + frac) == Some(-DecimalValue(whole, frac))
  {
    var t := "-" + whole + "." + frac;
    NegativeDecimalTrimmed(whole, frac);
    assert t == "-" + (whole + "." + frac);
    DecimalUpper(whole, frac);
    assert t[1] == whole[0];
    ParseFloatNegativeDecimal(whole, frac);
  }

  /** Digits, a point and a minus sign have no lower-case form to change. */
  lemma DecimalUpper(whole: string, frac: string)
    requires AllDigits(whole) && AllDigits(frac)
    ensures Upper(whole + "." + frac) == whole + "." + frac
    ensures Upper("-" + (whole + "." + frac)) == "-" + (whole + "." + frac)
  {
    var m := whole + "." + frac;
    forall i | 0 <= i < |m| ensures !('a' <= m[i] <= 'z') {
      if i < |whole| {
        assert m[i] == whole[i];
      } else if i > |whole| {
        assert m[i] == frac[i - |whole| - 1];
      }
    }
    UpperOfUpper(m);
    UpperOfUpper("-" + m);
  }

  /** The tokens that count as "yes" for the override and recovery flags. */
  predicate IsAffirmative(t: string) {
    t == "YES" || t == "Y" || t == "TRUE" || t == "1"
  }

  /** Fan token: any token containing `ON` means the fan is on, anything else is automatic. */
  function FanModeOf(token: string): (m: string)
    ensures m == FanModeOn || m == FanModeAuto
    ensures m == FanModeOn <==> Contains(Upper(Strip(token)), "ON")
  {
    if Contains(Upper(Strip(token)), "ON") then FanModeOn else FanModeAuto
  }

  /** A setpoint that fails to parse keeps its previous value. */
  function SetpointOf(token: string, previous: Option<int>): (r: Option<int>)
    ensures ParseInt(Strip(token)).None? ==> r == previous
    ensures ParseInt(Strip(token)).Some? ==> r == ParseInt(Strip(token))
  {
    var v := ParseInt(Strip(token));
    if v.Some? then v else previous
  }

  /** The event token `NONE`, in any case, means no event; any other token is kept trimmed. */
  function EventOf(token: string): (r: Option<string>)
    ensures r.None? <==> Upper(Strip(token)) == "NONE"
    ensures r.Some? ==> r.value == Strip(token)
  {
    var e := Strip(token);
    if Upper(e) != "NONE" then Some(e) else None
  }

  /**
   * The all-states payload `indoor,outdoor,mode,fan,override,recovery,
   * cool,heat,status,stage,event`. Fewer than eleven fields change nothing;
   * fields past the eleventh are ignored. What each field stores is stated
   * by the lemmas below.
   */
  function ParseAllStates(s: DeviceData, data: string): (r: DeviceData)
    ensures |Split(data, ',')| < 11 ==> r == s
    ensures OnlySliceChanges(s, r, ReadAllStates)
  {
    var p := Split(data, ',');
    if |p| < 11 then s else StoreAllStates(s, p)
  }

  /** The first eleven fields of an all-states payload stored into the snapshot. */
  function StoreAllStates(s: DeviceData, p: seq<string>): (r: DeviceData)
    requires |p| >= 11
    ensures OnlySliceChanges(s, r, ReadAllStates)
  {
    s.(indoorTemp := ParseTemp(p[0]),
       outdoorTemp := ParseTemp(p[1]),
       hvacMode := Some(Upper(Strip(p[2]))),
       fanMode := Some(FanModeOf(p[3])),
       overrideActive := IsAffirmative(Upper(Strip(p[4]))),
       recoveryActive := IsAffirmative(Upper(Strip(p[5]))),
       coolSetpoint := SetpointOf(p[6], s.coolSetpoint),
       heatSetpoint := SetpointOf(p[7], s.heatSetpoint),
       operatingStatus := Some(Upper(Strip(p[8]))),
       stage := ParseInt(Strip(p[9])),
       event := EventOf(p[10]))
  }

  /** The two temperatures go through the temperature parser; mode and status are stored trimmed and upper-cased. */
  lemma AllStatesReadings(s: DeviceData, data: string)
    requires |Split(data, ',')| >= 11
    ensures var p := Split(data, ','); var r := ParseAllStates(s, data);
      && r.indoorTemp == ParseTemp(p[0])
      && r.outdoorTemp == ParseTemp(p[1])
      && r.hvacMode == Some(Upper(Strip(p[2])))
      && r.operatingStatus == Some(Upper(Strip(p[8])))
  {
  }

  /**
   * The fan is ON exactly when its token holds `ON`, and AUTO otherwise;
   * override and recovery hold exactly for YES, Y, TRUE or 1, in any case.
   */
  lemma AllStatesSwitches(s: DeviceData, data: string)
    requires |Split(data, ',')| >= 11
    ensures var p := Split(data, ','); var r := ParseAllStates(s, data);
      && (r.fanMode == Some(FanModeOn) || r.fanMode == Some(FanModeAuto))
      && (r.fanMode == Some(FanModeOn) <==> Contains(Upper(Strip(p[3])), "ON"))
      && (r.overrideActive <==> IsAffirmative(Upper(Strip(p[4]))))
      && (r.recoveryActive <==> IsAffirmative(Upper(Strip(p[5]))))
  {
  }

  /**
   * A setpoint that is not an integer keeps its previous value; a stage that
   * is not an integer becomes absent; the event `NONE`, in any case, clears
   * the event and any other event is stored trimmed.
   */
  lemma AllStatesNumbers(s: DeviceData, data: string)
    requires |Split(data, ',')| >= 11
    ensures var p := Split(data, ','); var r := ParseAllStates(s, data);
      && (ParseInt(Strip(p[6])).None? ==> r.coolSetpoint == s.coolSetpoint)
      && (ParseInt(Strip(p[6])).Some? ==> r.coolSetpoint == ParseInt(Strip(p[6])))
      && (ParseInt(Strip(p[7])).None? ==> r.heatSetpoint == s.heatSetpoint)
      && (ParseInt(Strip(p[7])).Some? ==> r.heatSetpoint == ParseInt(Strip(p[7])))
      && r.stage == ParseInt(Strip(p[9]))
      && (r.event.None? <==> Upper(Strip(p[10])) == "NONE")
      && (r.event.Some? ==> r.event.value == Strip(p[10]))
  {
  }

  /**
   * The relay-mode payload `relay1,relay2`. Two or more fields set both
   * relays, a single field (the empty payload included) sets only relay 1.
   */
  function ParseRelayMode(s: DeviceData, data: string): (r: DeviceData)
    ensures OnlySliceChanges(s, r, ReadRelayMode)
    ensures r.relay1Mode == Some(Upper(Strip(Split(data, ',')[0])))
    ensures |Split(data, ',')| >= 2 ==> r.relay2Mode == Some(Upper(Strip(Split(data, ',')[1])))
    ensures |Split(data, ',')| == 1 ==> r.relay2Mode == s.relay2Mode
  {
    var p := Split(data, ',');
    if |p| >= 2 then
      s.(relay1Mode := Some(Upper(Strip(p[0]))), relay2Mode := Some(Upper(Strip(p[1]))))
    else
      s.(relay1Mode := Some(Upper(Strip(p[0]))))
  }

  /** An empty relay-mode payload still sets relay 1, to the empty token. */
  lemma EmptyRelayModePayload(s: DeviceData)
    ensures ParseRelayMode(s, "").relay1Mode == Some("")
    ensures ParseRelayMode(s, "").relay2Mode == s.relay2Mode
  {
    assert Split("", ',') == [""];
  }

  /**
   * The humidification or dehumidification payload `mode,setpoint,variance`.
   * Fewer than three fields change nothing. Otherwise the fields are stored
   * in order and the first one that fails to parse stops the update: the
   * mode is always stored, a bad setpoint leaves setpoint and variance as
   * they were, a bad variance leaves only the variance.
   */
  function ParseControl(c: HumidityControl, data: string): (r: HumidityControl)
    ensures |Split(data, ',')| < 3 ==> r == c
    ensures |Split(data, ',')| >= 3 ==>
      var p := Split(data, ',');
      var sp := ParseInt(Strip(p[1]));
      var va := ParseInt(Strip(p[2]));
      && r.controlMode == Some(Upper(Strip(p[0])))
      && (sp.None? ==> r.setpoint == c.setpoint && r.variance == c.variance)
      && (sp.Some? ==> r.setpoint == sp)
      && (sp.Some? && va.None? ==> r.variance == c.variance)
      && (sp.Some? && va.Some? ==> r.variance == va)
  {
    var p := Split(data, ',');
    if |p| < 3 then c
    else
      var c1 := c.(controlMode := Some(Upper(Strip(p[0]))));
      var sp := ParseInt(Strip(p[1]));
      if sp.None? then c1
      else
        var c2 := c1.(setpoint := sp);
        var va := ParseInt(Strip(p[2]));
        if va.None? then c2 else c2.(variance := va)
  }

  /** The temperature-scale payload: Fahrenheit when it mentions `FAHRENHEIT`, Celsius otherwise. */
  function ParseTempScale(payload: string): (scale: string)
    ensures scale == "F" || scale == "C"
    ensures scale == "F" <==> Contains(Upper(Strip(payload)), "FAHRENHEIT")
  {
    if Contains(Upper(Strip(payload)), "FAHRENHEIT") then "F" else "C"
  }

  /** The temperature-scale read ignores letter case. */
  lemma TempScaleIgnoresCase(payload: string)
    ensures ParseTempScale(Upper(payload)) == ParseTempScale(payload)
  {
    StripUpper(payload);
    UpperIdempotent(Strip(payload));
  }

  /** Blanks around the temperature-scale payload change nothing. */
  lemma TempScalePadded(pre: string, payload: string, post: string)
    requires forall i :: 0 <= i < |pre| ==> IsSpace(pre[i])
    requires forall i :: 0 <= i < |post| ==> IsSpace(post[i])
    ensures ParseTempScale(pre + payload + post) == ParseTempScale(payload)
  {
    StripPadded(pre, payload, post);
  }

  /**
   * The two scale names, in any case and with any blanks around them:
   * `Fahrenheit` reads as F and `Celsius` as C.
   */
  lemma TempScaleWords(payload: string)
    ensures Upper(Strip(payload)) == "FAHRENHEIT" ==> ParseTempScale(payload) == "F"
    ensures Upper(Strip(payload)) == "CELSIUS" ==> ParseTempScale(payload) == "C"
  {
    if Upper(Strip(payload)) == "FAHRENHEIT" {
      ContainsItself("FAHRENHEIT");
    } else if Upper(Strip(payload)) == "CELSIUS" {
      NotContainsMissingChar("CELSIUS", "FAHRENHEIT");
    }
  }

  lemma ContainsItself(s: string)
    ensures Contains(s, s)
  {
    ContainsAt(s, s, 0);
  }

  /** The humidity payload: a run of digits is the percentage, anything else is absent. */
  function ParseHumidityValue(payload: string): (h: Option<int>)
    ensures h.Some? <==> IsDigits(Strip(payload))
    ensures h.Some? ==> h.value >= 0
  {
    var t := Strip(payload);
    if IsDigits(t) then Some(DigitsValue(t)) else None
  }

  /** A humidity percentage sent as plain digits reads back as itself. */
  lemma HumidityRoundTrip(n: nat)
    ensures ParseHumidityValue(ShowNat(n)) == Some(n)
  {
    DigitsTrimmed(ShowNat(n));
    DigitsValueShowNat(n);
  }

  /** The operation-mode payload: manual exactly when it is `ON`. */
  function ParseManualMode(payload: string): (manual: bool)
    ensures manual <==> Strip(payload) == OperationModeManual
  {
    Strip(payload) == OperationModeManual
  }

  /** The human-readable label of the manual flag. */
  function OperationLabel(manual: bool): (name: string)
    ensures name == "Manual" || name == "Schedule"
    ensures name == "Manual" <==> manual
  {
    if manual then "Manual" else "Schedule"
  }

  /** The next snapshot after read `r` delivered `payload` (the response with the prefix removed). */
  function Decode(s: DeviceData, r: Read, payload: string): (t: DeviceData)
    ensures OnlySliceChanges(s, t, r)
  {
    match r
    case ReadTempScale => s.(tempScale := ParseTempScale(payload))
    case ReadAllStates => ParseAllStates(s, payload)
    case ReadHumidity => s.(humidity := ParseHumidityValue(payload))
    case ReadOperationMode =>
      var manual := ParseManualMode(payload);
      s.(isManualMode := manual, operationMode := OperationLabel(manual))
    case ReadRelayMode => ParseRelayMode(s, payload)
    case ReadHumidification => s.(hum := ParseControl(s.hum, payload))
    case ReadDehumidification => s.(dehum := ParseControl(s.dehum, payload))
    case ReadRelayState => s.(relayState := Some(Strip(payload)))
  }

  /**
   * What a read stores depends only on its payload and on the previous values
   * of its own fields, never on the rest of the snapshot.
   */
  lemma DecodeLocal(s: DeviceData, t: DeviceData, r: Read, payload: string)
    requires SliceOf(s, r) == SliceOf(t, r)
    ensures SliceOf(Decode(s, r, payload), r) == SliceOf(Decode(t, r, payload), r)
  {
    match r
    case ReadAllStates => AllStatesLocal(s, t, payload);
    case ReadRelayMode => RelayModeLocal(s, t, payload);
    case _ =>
  }

  lemma AllStatesLocal(s: DeviceData, t: DeviceData, data: string)
    requires SliceOf(s, ReadAllStates) == SliceOf(t, ReadAllStates)
    ensures SliceOf(ParseAllStates(s, data), ReadAllStates) == SliceOf(ParseAllStates(t, data), ReadAllStates)
  {
  }

  lemma RelayModeLocal(s: DeviceData, t: DeviceData, data: string)
    requires SliceOf(s, ReadRelayMode) == SliceOf(t, ReadRelayMode)
    ensures SliceOf(ParseRelayMode(s, data), ReadRelayMode) == SliceOf(ParseRelayMode(t, data), ReadRelayMode)
  {
  }

  // ----- Writing payloads back: the readings a device reports and their spelling -----

  /** A field the device spells as-is: trimmed, no lower-case letter, no comma. */
  predicate IsToken(t: string) {
    && (t == [] || (!IsSpace(t[0]) && !IsSpace(t[|t| - 1])))
    && (forall i :: 0 <= i < |t| ==> !('a' <= t[i] <= 'z') && t[i] != ',')
  }

  /** An event name the device can report: trimmed, no comma, and not the word `NONE`. */
  predicate IsEventName(e: string) {
    && (e == [] || (!IsSpace(e[0]) && !IsSpace(e[|e| - 1])))
    && ',' !in e
    && Upper(e) != "NONE"
  }

  /** What one all-states response reports, with integer temperatures. */
  datatype Reading = Reading(
    indoor: Option<int>,
    outdoor: Option<int>,
    mode: string,
    fanOn: bool,
    override: bool,
    recovery: bool,
    cool: int,
    heat: int,
    status: string,
    stage: int,
    event: Option<string>)

  predicate WellFormedReading(x: Reading) {
    && IsToken(x.mode)
    && IsToken(x.status)
    && (x.event.Some? ==> IsEventName(x.event.value))
  }

  function TempToken(t: Option<int>): string {
    if t.Some? then ShowInt(t.value) else "NA"
  }

  function FanToken(on: bool): string {
    if on then "FAN ON" else "FAN AUTO"
  }

  function YesNo(b: bool): string {
    if b then "YES" else "NO"
  }

  function EventToken(e: Option<string>): string {
    if e.Some? then e.value else "NONE"
  }

  /** The eleven fields of an all-states payload, in protocol order. */
  function ReadingFields(x: Reading): (p: seq<string>)
    ensures |p| == 11
  {
    [TempToken(x.indoor), TempToken(x.outdoor), x.mode, FanToken(x.fanOn),
     YesNo(x.override), YesNo(x.recovery), ShowInt(x.cool), ShowInt(x.heat),
     x.status, ShowInt(x.stage), EventToken(x.event)]
  }

  /** The all-states payload a device sends for reading `x`. */
  function RenderAllStates(x: Reading): string {
    Join(ReadingFields(x), ',')
  }

  function AsTemperature(t: Option<int>): Option<real> {
    if t.Some? then Some(t.value as real) else None
  }

  /** The snapshot `s` with every all-states field taken from reading `x`. */
  function WithReading(s: DeviceData, x: Reading): DeviceData {
    s.(indoorTemp := AsTemperature(x.indoor),
       outdoorTemp := AsTemperature(x.outdoor),
       hvacMode := Some(x.mode),
       fanMode := Some(if x.fanOn then FanModeOn else FanModeAuto),
       overrideActive := x.override,
       recoveryActive := x.recovery,
       coolSetpoint := Some(x.cool),
       heatSetpoint := Some(x.heat),
       operatingStatus := Some(x.status),
       stage := Some(x.stage),
       event := x.event)
  }

  lemma TokenReadsBack(t: string)
    requires IsToken(t)
    ensures Upper(Strip(t)) == t
  {
    NormalToken(t);
  }

  lemma TempTokenReadsBack(t: Option<int>)
    ensures ParseTemp(TempToken(t)) == AsTemperature(t)
    ensures ',' !in TempToken(t)
  {
    if t.Some? {
      ParseTempInteger(t.value);
      ShowIntChars(t.value);
    } else {
      NormalToken("NA");
    }
  }

  /** `FAN ON` holds `ON`; `FAN AUTO` does not. */
  lemma FanTokenReadsBack(on: bool)
    ensures Contains(Upper(Strip(FanToken(on))), "ON") <==> on
    ensures ',' !in FanToken(on)
  {
    FanTokenCommaFree(on);
    if on {
      FanOnReadsBack();
    } else {
      FanAutoReadsBack();
    }
  }

  lemma FanTokenCommaFree(on: bool)
    ensures ',' !in FanToken(on)
  {
    if on {
      TextCommaFree("FAN ON");
    } else {
      TextCommaFree("FAN AUTO");
    }
  }

  lemma FanOnReadsBack()
    ensures Contains(Upper(Strip("FAN ON")), "ON")
  {
    NormalToken("FAN ON");
    ContainsAt("FAN ON", "ON", 4);
  }

  lemma FanAutoReadsBack()
    ensures !Contains(Upper(Strip("FAN AUTO")), "ON")
  {
    NormalToken("FAN AUTO");
    FanAutoLacksOn();
  }

  /** A fixed token made of capital letters and spaces holds no comma. */
  lemma TextCommaFree(t: string)
    requires forall i :: 0 <= i < |t| ==> 'A' <= t[i] <= 'Z' || t[i] == ' '
    ensures ',' !in t
  {
  }

  lemma FanAutoLacksOn()
    ensures !Contains("FAN AUTO", "ON")
  {
    var s := "FAN AUTO";
    NotContainsMissingChar(s[8..], "ON");
    assert !StartsWith(s[7..], "ON");
    assert !StartsWith(s[6..], "ON");
    assert !StartsWith(s[5..], "ON");
    assert !StartsWith(s[4..], "ON");
    assert !StartsWith(s[3..], "ON");
    assert !StartsWith(s[2..], "ON");
    assert !StartsWith(s[1..], "ON");
    assert !StartsWith(s, "ON");
    assert s[1..][1..] == s[2..] && s[2..][1..] == s[3..] && s[3..][1..] == s[4..];
    assert s[4..][1..] == s[5..] && s[5..][1..] == s[6..] && s[6..][1..] == s[7..] && s[7..][1..] == s[8..];
  }

  lemma YesNoReadsBack(b: bool)
    ensures IsAffirmative(Upper(Strip(YesNo(b)))) <==> b
    ensures ',' !in YesNo(b)
  {
    NormalToken(YesNo(b));
  }

  lemma IntTokenReadsBack(n: int)
    ensures ParseInt(Strip(ShowInt(n))) == Some(n)
    ensures ',' !in ShowInt(n)
  {
    ShowIntChars(n);
    ParseIntShowInt(n);
  }

  lemma EventTokenReadsBack(e: Option<string>)
    requires e.Some? ==> IsEventName(e.value)
    ensures EventOf(EventToken(e)) == e
    ensures ',' !in EventToken(e)
  {
    if e.Some? {
      StripTrimmed(e.value);
    } else {
      NormalToken("NONE");
    }
  }

  lemma ShowIntCommaFree(n: int)
    ensures ',' !in ShowInt(n)
  {
    ShowIntChars(n);
  }

  /** No field of a well-formed reading's spelling holds a comma. */
  lemma ReadingFieldsCommaFree(x: Reading)
    requires WellFormedReading(x)
    ensures forall i :: 0 <= i < |ReadingFields(x)| ==> ',' !in ReadingFields(x)[i]
  {
    var p := ReadingFields(x);
    assert ',' !in p[0] && ',' !in p[1] by {
      if x.indoor.Some? { ShowIntCommaFree(x.indoor.value); }
      if x.outdoor.Some? { ShowIntCommaFree(x.outdoor.value); }
    }
    assert ',' !in p[2] && ',' !in p[8];
    assert ',' !in p[3] && ',' !in p[4] && ',' !in p[5];
    assert ',' !in p[6] && ',' !in p[7] && ',' !in p[9] by {
      ShowIntCommaFree(x.cool);
      ShowIntCommaFree(x.heat);
      ShowIntCommaFree(x.stage);
    }
    assert ',' !in p[10];
  }

  /** Reading back the spelling of a reading yields its eleven fields, one per position. */
  lemma AllStatesFieldsReadBack(x: Reading)
    requires WellFormedReading(x)
    ensures Split(RenderAllStates(x), ',') == ReadingFields(x)
  {
    ReadingFieldsCommaFree(x);
    SplitJoin(ReadingFields(x), ',');
  }

  /**
   * Parsing the payload a device sends for a well-formed reading stores
   * exactly that reading: encoding and decoding of the all-states read are
   * inverse.
   */
  lemma AllStatesRoundTrip(s: DeviceData, x: Reading)
    requires WellFormedReading(x)
    ensures ParseAllStates(s, RenderAllStates(x)) == WithReading(s, x)
  {
    AllStatesFieldsReadBack(x);
    StoreReadingFields(s, x, ReadingFields(x));
  }

  /** Each of the eleven fields of a well-formed reading is stored as the value it spells. */
  lemma StoreReadingFields(s: DeviceData, x: Reading, p: seq<string>)
    requires WellFormedReading(x) && |p| == 11
    requires p[0] == TempToken(x.indoor) && p[1] == TempToken(x.outdoor)
    requires p[2] == x.mode && p[3] == FanToken(x.fanOn)
    requires p[4] == YesNo(x.override) && p[5] == YesNo(x.recovery)
    requires p[6] == ShowInt(x.cool) && p[7] == ShowInt(x.heat)
    requires p[8] == x.status && p[9] == ShowInt(x.stage) && p[10] == EventToken(x.event)
    ensures StoreAllStates(s, p) == WithReading(s, x)
  {
    TempTokenReadsBack(x.indoor);
    TempTokenReadsBack(x.outdoor);
    TokenReadsBack(x.mode);
    FanTokenReadsBack(x.fanOn);
    YesNoReadsBack(x.override);
    YesNoReadsBack(x.recovery);
    IntTokenReadsBack(x.cool);
    IntTokenReadsBack(x.heat);
    TokenReadsBack(x.status);
    IntTokenReadsBack(x.stage);
    EventTokenReadsBack(x.event);
  }

  /** The humidity-control payload `mode,setpoint,variance`. */
  function RenderControl(mode: string, setpoint: int, variance: int): string {
    Join([mode, ShowInt(setpoint), ShowInt(variance)], ',')
  }

  /** Parsing a control payload stores its mode, setpoint and variance, whatever was there before. */
  lemma ControlRoundTrip(c: HumidityControl, mode: string, setpoint: int, variance: int)
    requires IsToken(mode)
    ensures ParseControl(c, RenderControl(mode, setpoint, variance))
         == HumidityControl(Some(mode), Some(setpoint), Some(variance))
  {
    IntTokenReadsBack(setpoint);
    IntTokenReadsBack(variance);
    assert ',' !in mode;
    SplitJoinThree(mode, ShowInt(setpoint), ShowInt(variance), ',');
    TokenReadsBack(mode);
  }

  /** The relay-mode payload `relay1,relay2`. */
  function RenderRelayModes(relay1: string, relay2: string): string {
    Join([relay1, relay2], ',')
  }

  /** Parsing a relay-mode payload stores both relay modes. */
  lemma RelayModeRoundTrip(s: DeviceData, relay1: string, relay2: string)
    requires IsToken(relay1) && IsToken(relay2)
    ensures ParseRelayMode(s, RenderRelayModes(relay1, relay2))
         == s.(relay1Mode := Some(relay1), relay2Mode := Some(relay2))
  {
    assert ',' !in relay1 && ',' !in relay2;
    SplitJoinTwo(relay1, relay2, ',');
    TokenReadsBack(relay1);
    TokenReadsBack(relay2);
  }

  /**
   * The two operation-mode tokens `ON` and `OFF` read back as manual and
   * schedule mode, labelled `Manual` and `Schedule`.
   */
  lemma OperationModeTokensRead(s: DeviceData)
    ensures ParseManualMode(OperationModeManual)
    ensures !ParseManualMode(OperationModeSchedule)
    ensures Decode(s, ReadOperationMode, OperationModeManual).isManualMode
    ensures Decode(s, ReadOperationMode, OperationModeManual).operationMode == "Manual"
    ensures !Decode(s, ReadOperationMode, OperationModeSchedule).isManualMode
    ensures Decode(s, ReadOperationMode, OperationModeSchedule).operationMode == "Schedule"
  {
    StripTrimmed(OperationModeManual);
    StripTrimmed(OperationModeSchedule);
  }
}
