# NetX thermostat protocol client, modelled in Dafny

The NetX thermostat integration talks to the thermostat over one TCP
connection using a line protocol:

- The client logs in with `WMLS1D{username},{hash}`. The login holds when
  the answer starts with `OK`.
- Each read sends a short verb such as `RAS1` or `RTS1`. The client accepts
  the answer only when it starts with the verb's prefix (`RAS1:` and so on).
  It then parses the payload into the fields of a state snapshot.
- Each write sends a verb followed by its argument, such as `WNMS1DHEAT`. The
  client then checks the echoed answer.

This project models that client, `api.py`, and its constant table
`const.py`. The modules are:

- `Optional`: an option type.
- `PyText`, `PyNumbers`: the Python string and number built-ins the client
  uses. These are `strip()` over Python's whitespace set, ASCII `upper()`,
  `split` (it never returns an empty list), `replace(prefix, "")`, `int()`,
  `float()` on decimal literals with exact real results, `isdigit()` and
  `str(n)`. What they leave out is listed under "## Left out".
- `Const`: the verbs, response prefixes, limits and codes. It also holds
  lemmas that the prefixes are pairwise unambiguous and that the eight reads
  of a poll are distinct.
- `ThermostatState`: the snapshot. It holds the device data, split into
  the slices each read may touch, and the connection status `connected` and
  `lastError`, which no parser touches.
- `Codec`: the payload parsers (`_parse_all_states`, `_parse_relay_mode`,
  `_parse_humidification`, `_parse_dehumidification`, `_parse_temp`, and the
  inline parsing in `async_update`). The all-states, relay-mode,
  humidification, dehumidification and humidity payloads each have a
  renderer for the device side, and a round-trip lemma shows that a rendered
  payload parses back to what was rendered. Temperatures have read-back
  lemmas for integer and decimal spellings. The temperature scale has lemmas
  that it ignores case and surrounding blanks. The relay state is stored
  trimmed and has no further lemma.
- `PollMerge`: a poll cycle as a pure fold of eight answers into the
  snapshot. A response that does not carry its read's prefix changes
  nothing. Each read changes only its own slice.
- `Commands`: the argument checks, the manual/schedule verb choice and the
  clamps of the `async_set_*` setters, plus `_validate_write_response`.
- `Session`: the connection state machine: `connect`, `_send_command`,
  `disconnect`, `async_update`, `test_connection` and the setters' shared
  tail. Opening the socket and each line exchange are given as outcomes,
  either a reply or a fault.

Three behaviours of the code are easy to miss:

- An empty relay-mode payload still sets relay 1 to the empty token. Python's
  `split` returns `[""]` for an empty string.
- A humidification or dehumidification payload whose setpoint does not parse
  still updates the control mode. The assignments happen one by one before
  the exception.
- A poll cycle always ends with `connected` true and `lastError` cleared,
  even when no read got through. This is recorded under "## Findings".

## Model

| member | source | states |
|---|---|---|
| ThermostatState.SlicesDetermineState | custom_components/netx_thermostat/api.py:49-89 | Two device-data records that agree on every read's slice are equal. The eight reads together cover every field. |
| ThermostatState.OtherSlicesKept | custom_components/netx_thermostat/api.py:49-89 | A change confined to one read's slice keeps the slice of every other read. |
| Const.PrefixIsVerbColon | custom_components/netx_thermostat/const.py:86-94 | Each response prefix is its read verb followed by `:`. |
| Const.PrefixesUnambiguous | custom_components/netx_thermostat/const.py:86-94 | A line can start with the prefixes of two reads only if they are the same read. `RMHS1:` and `RMDHS1:` cannot be confused. |
| Const.PollOrderCoversReads | custom_components/netx_thermostat/api.py:241-286 | The poll issues eight reads, each read exactly once. |
| Const.ManualAndScheduleVerbsDiffer | custom_components/netx_thermostat/const.py:40-50 | For each dual-verb setting, the manual verb and the schedule verb differ. |
| Const.OperationModeTokensDiffer | custom_components/netx_thermostat/const.py:71-72 | The manual token `ON` and the schedule token `OFF` of the operation-mode read differ. |
| Const.HumidityLimitsOrdered | custom_components/netx_thermostat/const.py:22-25 | The humidity setpoint range and the variance range are non-empty. |
| Const.CodesDistinct | custom_components/netx_thermostat/const.py:75-83 | The four humidity control codes are pairwise distinct, and so are the three relay modes. |
| Const.TemperatureLimitsConsistent | custom_components/netx_thermostat/const.py:14-19 | The setpoint limits lie inside the valid temperature range, and each range is ordered. |
| Codec.ParseTemp | custom_components/netx_thermostat/api.py:415-423 | `NA`, `--`, `N/A` and blank in any case read as no value. Any other token is read by `float()` after trimming and upper-casing, and a token `float()` rejects reads as no value. A value comes only from a token holding a digit. |
| Codec.ParseTempInteger | custom_components/netx_thermostat/api.py:415-423 | The decimal spelling `str(n)` of any integer reads back as that integer. |
| Codec.ParseTempPadded | custom_components/netx_thermostat/api.py:417 | Blanks added before or after a temperature token do not change what it reads as. |
| Codec.ParsePaddedTempInteger | custom_components/netx_thermostat/api.py:415-423 | The spelling of any integer, with any blanks around it, reads back as that integer. |
| Codec.ParseTempIgnoresCase | custom_components/netx_thermostat/api.py:417 | Upper-casing a temperature token does not change what it reads as. |
| Codec.ParseTempDecimal | custom_components/netx_thermostat/api.py:415-423 | A decimal spelling `whole.frac` reads back as whole plus frac over ten to the number of fraction digits, for example `72.5` as 72.5. |
| Codec.ParseTempNegativeDecimal | custom_components/netx_thermostat/api.py:415-423 | A negative decimal spelling `-whole.frac` reads back as the negated value. |
| Codec.ParseAllStates | custom_components/netx_thermostat/api.py:359-411 | With fewer than 11 comma-separated fields nothing changes. In every case only the all-states fields can change. |
| Codec.StoreAllStates | custom_components/netx_thermostat/api.py:362-409 | Storing the first eleven fields changes only the all-states fields. |
| Codec.AllStatesReadings | custom_components/netx_thermostat/api.py:363-398 | The two temperatures go through `_parse_temp`. The HVAC mode and the operating status are stored trimmed and upper-cased. |
| Codec.AllStatesSwitches | custom_components/netx_thermostat/api.py:372-383 | The fan mode is always ON or AUTO, and it is ON exactly when the upper-cased token contains `ON`. Override and recovery hold exactly for YES, Y, TRUE or 1, in any case. |
| Codec.AllStatesNumbers | custom_components/netx_thermostat/api.py:385-409 | A setpoint keeps its old value exactly when its field does not parse, and takes the parsed value otherwise. A stage that does not parse becomes absent. The event is cleared exactly for `NONE` in any case, and is otherwise the trimmed field. |
| Codec.AllStatesRoundTrip | custom_components/netx_thermostat/api.py:351-413 | Rendering a well-formed reading as the device's 11-field payload and parsing it gives back exactly that reading. |
| Codec.ParseRelayMode | custom_components/netx_thermostat/api.py:298-313 | Two or more fields set both relay modes, trimmed and upper-cased. A single field sets relay 1 only. |
| Codec.EmptyRelayModePayload | custom_components/netx_thermostat/api.py:306-311 | An empty payload sets relay 1 to the empty token and leaves relay 2 alone. |
| Codec.RelayModeRoundTrip | custom_components/netx_thermostat/api.py:298-313 | Rendered relay tokens parse back to the same tokens. |
| Codec.ParseControl | custom_components/netx_thermostat/api.py:315-349 | With fewer than three fields nothing changes. Otherwise the mode is set; the setpoint is set only if it parses; the variance is set only if both numbers parse. |
| Codec.ControlRoundTrip | custom_components/netx_thermostat/api.py:315-349 | A rendered `{mode},{setpoint},{variance}` parses back to those three values. |
| Codec.ParseTempScale | custom_components/netx_thermostat/api.py:242-245 | The scale is always F or C, and it is F exactly when the upper-cased payload contains `FAHRENHEIT`. |
| Codec.TempScaleIgnoresCase | custom_components/netx_thermostat/api.py:244-245 | Upper-casing the payload does not change the scale read. |
| Codec.TempScalePadded | custom_components/netx_thermostat/api.py:244-245 | Blanks added before or after the payload do not change the scale read. |
| Codec.TempScaleWords | custom_components/netx_thermostat/api.py:244-245 | `Fahrenheit` and `Celsius`, in any case and with any blanks around them, read as F and C. |
| Codec.ParseHumidityValue | custom_components/netx_thermostat/api.py:253-259 | A trimmed all-digit payload gives its value. Anything else gives no value. |
| Codec.HumidityRoundTrip | custom_components/netx_thermostat/api.py:253-259 | The spelling of any natural number reads back as that number. |
| Codec.ParseManualMode | custom_components/netx_thermostat/api.py:262-266 | Manual mode holds exactly when the trimmed payload is `ON`, the value of `OPERATION_MODE_MANUAL`. |
| Codec.OperationLabel | custom_components/netx_thermostat/api.py:266 | The label is `Manual` or `Schedule`, and it is `Manual` exactly for manual mode. |
| Codec.OperationModeTokensRead | custom_components/netx_thermostat/api.py:262-266 | `ON` reads as manual mode labelled `Manual`, and `OFF` as schedule mode labelled `Schedule`. |
| Codec.Decode | custom_components/netx_thermostat/api.py:241-286 | Decoding a read's payload changes only that read's slice of the snapshot. |
| Codec.DecodeLocal | custom_components/netx_thermostat/api.py:241-286 | What a payload does to a read's slice depends only on that slice's old values. |
| PollMerge.ApplyResponse | custom_components/netx_thermostat/api.py:241-286 | An answer changes only its read's slice. A missing answer, an empty one, or one without the read's prefix changes nothing. |
| PollMerge.MisroutedResponseIgnored | custom_components/netx_thermostat/api.py:241-286 | An answer carrying another read's prefix leaves the snapshot unchanged. |
| PollMerge.PayloadAfterPrefix | custom_components/netx_thermostat/api.py:244 | Removing the prefix from `prefix + payload` gives the payload back, when the payload holds no second copy of the prefix. |
| PollMerge.Merge | custom_components/netx_thermostat/api.py:238-296 | A cycle's merged snapshot always reads as connected with no error. |
| PollMerge.MergeReadsSnoc | custom_components/netx_thermostat/api.py:241-286 | Merging one more answer is applying it to the merge of the earlier ones. |
| PollMerge.MergeSlices | custom_components/netx_thermostat/api.py:241-289 | After a cycle, each read's slice is exactly what that read's own answer makes of it, whatever the other answers were. |
| PollMerge.MergeNoResponses | custom_components/netx_thermostat/api.py:241-289 | If no answer carries its prefix, all device data is kept and the snapshot still reads as connected with no error. |
| Commands.SelectVerb | custom_components/netx_thermostat/api.py:468-472 | Picks the manual verb (`WN...`) exactly when the snapshot is in manual mode, and the schedule verb otherwise. |
| Commands.BuildHvacMode | custom_components/netx_thermostat/api.py:462-477 | Refused exactly when the upper-cased mode is not OFF/HEAT/COOL/AUTO. Otherwise the command is the mode verb plus that mode, with that mode expected back. |
| Commands.BuildFanMode | custom_components/netx_thermostat/api.py:479-493 | Refused exactly when the upper-cased mode is not ON/AUTO. Otherwise the command is the fan verb plus that mode, with that mode expected back. |
| Commands.BuildCoolSetpoint | custom_components/netx_thermostat/api.py:495-504 | The text is the cool verb for the current mode (`WN...` exactly in manual mode) followed by `str(temperature)`, with that spelling expected back. |
| Commands.BuildHeatSetpoint | custom_components/netx_thermostat/api.py:506-515 | The text is the heat verb for the current mode (`WN...` exactly in manual mode) followed by `str(temperature)`, with that spelling expected back. |
| Commands.BuildTempScale | custom_components/netx_thermostat/api.py:517-527 | An empty argument raises the index error. A first letter other than F or C (any case) is refused. Otherwise it sends `WTS1D` plus that letter upper-cased. |
| Commands.BuildRelayMode | custom_components/netx_thermostat/api.py:529-539 | Refused exactly when the upper-cased mode is not OFF/HUM/DEHUM. Otherwise it sends `WMRF1D` plus the mode. |
| Commands.ClampSetpoint | custom_components/netx_thermostat/api.py:558 | The result lies in [10, 90], and it equals the input when the input is in range. |
| Commands.ClampVariance | custom_components/netx_thermostat/api.py:559 | The result lies in [2, 10], and it equals the input when the input is in range. |
| Commands.BuildHumidification | custom_components/netx_thermostat/api.py:541-564 | Sends `WMHS1D`, the code IH or WH, and the clamped setpoint and variance, with no value expected back. |
| Commands.BuildDehumidification | custom_components/netx_thermostat/api.py:566-589 | Sends `WMDHS1D`, the code IC or WC, and the clamped setpoint and variance, with no value expected back. |
| Commands.ControlCommandReadsBack | custom_components/netx_thermostat/api.py:556-561 | The triple after the verb parses, with the humidification parser, back to the code and the clamped numbers. |
| Commands.ValidateWriteResponse | custom_components/netx_thermostat/api.py:427-460 | True exactly when: there is an answer; it contains `:`; it starts with the command's text before its first `D`; and, when a value is expected, the trimmed text after the first colon equals it. |
| Commands.EchoAccepted | custom_components/netx_thermostat/api.py:427-460 | A well-built command's echo `{command}:{expected}` is accepted. |
| Commands.AcceptedAnswerCarriesValue | custom_components/netx_thermostat/api.py:427-460 | An echo `{command}:{value}` of a command is accepted exactly when no value is expected or `value`, with surrounding blanks removed, equals the expected value. So ` 72 ` confirms an expected `72`. |
| Commands.DehumidificationCheckIsLoose | custom_components/netx_thermostat/api.py:449-450 | For `WMDHS1D...` the prefix check compares only `WM`. So a relay-mode answer `WMRF1D:OFF` passes it. |
| Session.FaultMessage | custom_components/netx_thermostat/api.py:161-178 | A timeout records `Connection timeout`, an OS error `Connection failed: ` plus its text, and any other error its own text. |
| Session.Close | custom_components/netx_thermostat/api.py:180-190 | Afterwards there is no stream and no login. The snapshot is untouched. |
| Session.Disconnect | custom_components/netx_thermostat/api.py:192-197 | Afterwards there is no stream and no login, and the snapshot reads as not connected. The data and the last error are kept. |
| Session.DisconnectIdempotent | custom_components/netx_thermostat/api.py:180-197 | Disconnecting twice equals disconnecting once. Disconnecting without a stream gives the same result. |
| Session.Connect | custom_components/netx_thermostat/api.py:121-178 | Connect succeeds exactly when the socket opens and the trimmed login answer starts with `OK`, and success is exactly being logged in. Success means connected with no error; failure means not connected with an error recorded. The login line is written exactly when the socket opened. |
| Session.ConnectErrors | custom_components/netx_thermostat/api.py:151-178 | The recorded error is the fault's message, or `Authentication failed: ` plus the trimmed answer. |
| Session.Send | custom_components/netx_thermostat/api.py:199-236 | Sending never changes device data. It keeps a consistent client consistent (logged in implies a stream and connected). |
| Session.SendOutcome | custom_components/netx_thermostat/api.py:199-236 | An answer is the trimmed reply line. An answer arrives exactly when the client was or became logged in and the exchange succeeded; such a client writes the login line if it needed one, then the command. Without a login no command is written, and a rejected login leaves the client logged out. A failed exchange logs out and clears `connected`. |
| Session.SendLoggedIn | custom_components/netx_thermostat/api.py:199-236 | A logged-in client whose exchange succeeds stays as it was, writes only the command and gets the trimmed reply line. |
| Session.SendWhileLoggedIn | custom_components/netx_thermostat/api.py:201-203 | A logged-in client writes only the command line. |
| Session.Update | custom_components/netx_thermostat/api.py:238-296 | The snapshot is the merge of the eight answers, which are the trimmed reply lines. It always ends connected with no error, even when the device cannot be reached at all; then nothing is written and no answer arrives. A client that is or becomes logged in and gets every reply records all eight trimmed replies and writes the login line if it needed one, then the eight command lines in poll order. |
| Session.UpdateReportingFailure | custom_components/netx_thermostat/api.py:238-296 | Same data, answers and lines as the cycle above, but `connected` equals being logged in. An unreachable device ends not connected, with the last open fault recorded and nothing written. |
| Session.PollStep | custom_components/netx_thermostat/api.py:241-245 | One read: the answer, if any, is the trimmed reply line and is merged into the data. An answer arrives exactly when the client is or becomes logged in and the exchange succeeds; then the lines written are the login line if it was needed, then the read's command line. A failed open writes nothing and records the fault. The client is logged in afterwards only if it was already or its login was accepted. |
| Session.CycleMerges | custom_components/netx_thermostat/api.py:241-286 | After the reads, in the given order, the data is the merge of their answers into the old data, and the configuration is kept. |
| Session.CycleAnswersTrimmed | custom_components/netx_thermostat/api.py:241-286 | Each answer of a cycle is the trimmed reply line of its own round. |
| Session.CycleKeepsInv | custom_components/netx_thermostat/api.py:199-286 | A consistent client stays consistent, and after at least one read `connected` agrees with the login. |
| Session.CycleUnreachable | custom_components/netx_thermostat/api.py:199-286 | If every socket open fails, the client stays logged out, gets no answer and writes nothing. |
| Session.CycleUnreachableError | custom_components/netx_thermostat/api.py:161-178 | If every socket open fails, the error recorded is the fault of the last attempt. |
| Session.CycleAnswered | custom_components/netx_thermostat/api.py:199-286 | A client that is or becomes logged in and gets every reply stays logged in, records each trimmed reply as the answer of its own read, and writes the login line if it needed one, then one command line per read in the given order. |
| Session.TestConnection | custom_components/netx_thermostat/api.py:591-597 | True exactly when a fresh login is accepted and the temperature-scale read gets an answer. |
| Session.Perform | custom_components/netx_thermostat/api.py:462-589 | A refused argument returns false and a raised error propagates, both without writing anything. For a built command, a client that is or becomes logged in writes the login line if it needed one and then the command line. The outcome is then the verdict of `_validate_write_response` on the trimmed answer, or false when the exchange fails. A client whose login fails writes only the login attempt and returns false. Writes never change device data. |
| Session.EchoConfirmsWrite | custom_components/netx_thermostat/api.py:427-477 | A logged-in client whose device echoes `{command}:{expected}` reports the write as confirmed, after writing only that command. |
| Session.FailedExchangeRefutesWrite | custom_components/netx_thermostat/api.py:220-236 | A write whose exchange fails returns false and leaves the client logged out and not connected. |
| Session.SetterUsesModeVerb | custom_components/netx_thermostat/api.py:468-477 | The HVAC setter writes the manual verb exactly when the snapshot says manual mode. |
| PyNumbers.ParseIntShowInt | custom_components/netx_thermostat/api.py:386-398 | `int(str(n)) == n` for every integer, the case the setpoint and stage fields rely on. |
| PyText.StripPadded | custom_components/netx_thermostat/api.py:417 | `(pre + s + post).strip() == s.strip()` when `pre` and `post` are whitespace. |
| PyText.StripUpper | custom_components/netx_thermostat/api.py:417 | `s.upper().strip() == s.strip().upper()`. |
| PyNumbers.ParseFloatDecimal | custom_components/netx_thermostat/api.py:419-423 | `float("whole.frac")` is whole plus frac over ten to the number of fraction digits. |
| PyNumbers.ParseFloatNegativeDecimal | custom_components/netx_thermostat/api.py:419-423 | `float("-whole.frac")` is the negated value. |
| PyNumbers.ParseFloatShowInt | custom_components/netx_thermostat/api.py:419-423 | `float(str(n)) == n` for every integer, the case the temperature fields rely on. |

## Left out

- Sockets, the asyncio lock and the timeouts: each open and each line exchange is an outcome passed in. Concurrency is not modelled; the lock's effect is that a cycle runs its reads in sequence, which the model does.
- `_generate_auth_hash` (api.py:115-119): SHA-256 and Base64 are not modelled. The hash is a configuration field.
- Logging: not modelled.
- `upper()` is ASCII only. Python's full Unicode case mapping (for example `ß` to `SS`) is not modelled.
- `int()` and `float()` cover signed decimal digits, a decimal point and an exponent. Underscores, non-ASCII digits, `inf` and `nan` are not modelled.
- A `UnicodeDecodeError` while decoding the answer bytes is folded into the generic fault.
- The outer `except` of `async_update` (api.py:291-294): every step it covers returns instead of raising, so it cannot fire. It is not modelled.
- The Home Assistant platform files (`climate.py`, `sensor.py`, `number.py`, `switch.py`, `select.py`, `button.py`, `config_flow.py`, `coordinator.py`, `__init__.py`) and `generator.py` are not part of this model.
- The HTTP and XML auxiliary fetches are not part of this model.
- `CMD_GET_OCCUPIED_COOL` and `CMD_GET_COOL_STAGES` (const.py) are not modelled: no code path sends them.
- Commands.BuildHumidification, Commands.BuildDehumidification: the setpoint and variance arguments are plain integers that the caller always gives. Python's default `variance=5` is not modelled.
- Codec.ParseTemp: a temperature token spelling `inf`, `infinity` or `nan` (any case) reads as no value, and a value comes only from a token with a digit. Python's `float()` would give infinity or NaN for them, which the model has no value for.
- PyNumbers.ParseFloat: the result is an exact real. Python rounds to the nearest binary double, so large or long spellings can differ in the last bits.
- PyNumbers.ParseFloat: there is no overflow to `inf` and no underflow to `0.0` for huge exponents.
- PyNumbers.ParseInt, PyNumbers.ShowInt: Python 3.11 and later refuse conversions of more than 4300 digits with a `ValueError`. The model has no such limit.

## Findings

| source | as written | input that shows it | evidently intended | confidence | as-written member | corrected member |
|---|---|---|---|---|---|---|
| custom_components/netx_thermostat/api.py:288-289 | After the eight reads, `async_update` always sets `connected = True` and `last_error = None`. `_send_command` swallows connection failures, so this happens even when no read got through. | A client not logged in whose every socket open times out. All eight answers are `None`, yet the snapshot reads as connected with no error. So the caller's `if not state.connected` check (coordinator.py:33) never fires. | The snapshot reports not connected, with the connection error, when the device cannot be reached. | medium, not executed | Session.Update | Session.UpdateReportingFailure |
