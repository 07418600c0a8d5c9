/** The command line the middleware writes to the device for a validated request. */
module Command {
  import opened Wrappers
  import opened Text
  import opened Strconv
  import opened Registry

  /** The command a request encodes: `<NAME;>` for a toggle, `<SET_NAME=VALUE;>` for
      everything else, the value copied verbatim. The branch is chosen by the `PUMP`
      prefix of the name. */
  function Encode(p: string, v: string): (c: string)
    ensures |c| >= |p| + 3 && c[0] == '<' && c[|c| - 2..] == ";>"
  {
    if HasPrefix(p, "PUMP") then "<" + p + ";>" else "<SET_" + p + "=" + v + ";>"
  }

  /** The two toggle requests write `<PUMP_ON;>` and `<PUMP_OFF;>`. */
  lemma ToggleCommands()
    ensures Encode("PUMP_ON", "") == "<" + "PUMP_ON" + ";>" == "<PUMP_ON;>"
    ensures Encode("PUMP_OFF", "") == "<" + "PUMP_OFF" + ";>" == "<PUMP_OFF;>"
  {
    assert "PUMP_ON"[..4] == "PUMP" && "PUMP_OFF"[..4] == "PUMP";
  }

  /** A command as the device reads it. */
  datatype DeviceCommand = Trigger(name: string) | SetValue(name: string, value: string)

  /** The wire format read back: `<` and `;>` around either `SET_NAME=VALUE` or `NAME`. */
  function ParseCommand(line: string): Option<DeviceCommand>
  {
    if |line| < 3 || line[0] != '<' || line[|line| - 2..] != ";>" then None
    else
      var body := line[1..|line| - 2];
      if HasPrefix(body, "SET_") then
        var parts := Split(body[4..], '=');
        if |parts| == 2 then Some(SetValue(parts[0], parts[1])) else None
      else Some(Trigger(body))
  }

  /** The command a validated request stands for. */
  function Intended(p: string, v: string): DeviceCommand
  {
    if p in PumpParams then Trigger(p) else SetValue(p, v)
  }

  /** Reading back the encoded command of a validated request gives the request: a
      toggle for a pump parameter, a set of the exact value otherwise. */
  lemma EncodeRoundTrip(p: string, v: string)
    requires URLParamValid(p) && URLValueValid(p, v)
    ensures ParseCommand(Encode(p, v)) == Some(Intended(p, v))
  {
    PumpPrefixMatchesClass(p);
    if p in PumpParams {
      ToggleRoundTrip(p);
    } else {
      ValidatedTextIsPlain(p, v);
      SetRoundTrip(p, v);
    }
  }

  /** A toggle command reads back as a trigger of the name. */
  lemma ToggleRoundTrip(p: string)
    requires p in PumpParams
    ensures ParseCommand("<" + p + ";>") == Some(Trigger(p))
  {
    var line := "<" + p + ";>";
    assert line[0] == '<' && line[|line| - 2..] == ";>";
    assert line[1..|line| - 2] == p;
    assert p[0] == 'P';
  }

  /** A set command reads back as the name and the exact value text. */
  lemma SetRoundTrip(p: string, v: string)
    requires !HasPrefix(p, "PUMP") && '=' !in p && '=' !in v
    ensures ParseCommand("<SET_" + p + "=" + v + ";>") == Some(SetValue(p, v))
  {
    var line := "<SET_" + p + "=" + v + ";>";
    assert line[0] == '<' && line[|line| - 2..] == ";>";
    var body := line[1..|line| - 2];
    assert body == "SET_" + p + "=" + v;
    assert body[4..] == p + "=" + v;
    SplitAppend(p, '=', v);
    SplitWithoutSeparator(p, '=');
    SplitWithoutSeparator(v, '=');
  }

  /** Distinct validated requests write distinct commands. */
  lemma EncodeInjective(p: string, v: string, p': string, v': string)
    requires URLParamValid(p) && URLValueValid(p, v)
    requires URLParamValid(p') && URLValueValid(p', v')
    requires Encode(p, v) == Encode(p', v')
    ensures p == p' && (p !in PumpParams ==> v == v')
  {
    EncodeRoundTrip(p, v);
    EncodeRoundTrip(p', v');
  }
}
