/** `admin_setting_configtext_with_conversion`: a text setting shown in one unit (minutes)
    and stored in another (seconds), the stored value being the shown one times `multiplier`. */
module Settings {
  import opened Wrappers
  import opened Php
  import SchedulerTask

  /** A value as PHP holds it: the submitted or stored string, or the integer a conversion
      produced. */
  datatype Value = Str(s: string) | Num(n: int)

  /** `set_config` keeps every value as its string. */
  function AsStored(v: Value): (s: string)
  {
    match v
    case Str(s) => s
    case Num(n) => IntToString(n)
  }

  datatype ConversionSetting = ConversionSetting(name: string, default: string, multiplier: int)

  /** `write_setting`: the value handed on to the parent class to store. */
  function WriteSetting(setting: ConversionSetting, data: string): (v: Value)
    ensures setting.multiplier == 1 || data == "" ==> v == Str(data)
    ensures setting.multiplier != 1 && data != "" ==> v.Num? && v.n == IntVal(data) * setting.multiplier
  {
    if setting.multiplier != 1 && data != "" then Num(IntVal(data) * setting.multiplier) else Str(data)
  }

  /** `get_setting`: the stored value converted back to the shown unit, truncating. */
  function GetSetting(setting: ConversionSetting, stored: Option<string>): (r: Option<Value>)
    requires setting.multiplier != 0
    ensures stored.None? ==> r.None?
    ensures setting.multiplier == 1 && stored.Some? ==> r == Some(Str(stored.value))
    ensures setting.multiplier != 1 && stored.Some?
            ==> r.Some? && r.value.Num? && TruncatedQuotient(IntVal(stored.value), setting.multiplier, r.value.n)
    ensures setting.multiplier != 1 && stored.Some?
            ==> r == Some(Num(TruncDiv(IntVal(stored.value), setting.multiplier)))
    ensures setting.multiplier > 1 && stored.Some? && IntVal(stored.value) >= 0
            ==> r.Some? && r.value.Num? && r.value.n == IntVal(stored.value) / setting.multiplier
  {
    if stored.Some? && setting.multiplier != 1 then
      TruncDivTruncates(IntVal(stored.value), setting.multiplier);
      Some(Num(TruncDiv(IntVal(stored.value), setting.multiplier)))
    else match stored
      case None => None
      case Some(s) => Some(Str(s))
  }

  /** Reading back a written value gives `intval` of what was written, whatever its sign,
      and the written text itself when nothing is converted. */
  lemma WriteThenGet(setting: ConversionSetting, data: string)
    requires setting.multiplier != 0
    ensures var back := GetSetting(setting, Some(AsStored(WriteSetting(setting, data))));
      && (setting.multiplier != 1 && data != "" ==> back == Some(Num(IntVal(data))))
      && (setting.multiplier == 1 ==> back == Some(Str(data)))
  {
    if setting.multiplier != 1 && data != "" {
      var n := IntVal(data) * setting.multiplier;
      IntValOfIntToString(n);
      TruncDivExact(IntVal(data), setting.multiplier);
    }
  }

  /** For an integer written as PHP prints it, the round trip returns that integer. */
  lemma IntegerRoundTrip(setting: ConversionSetting, n: int)
    requires setting.multiplier != 0 && setting.multiplier != 1
    ensures GetSetting(setting, Some(AsStored(WriteSetting(setting, IntToString(n))))) == Some(Num(n))
  {
    IntValOfIntToString(n);
    WriteThenGet(setting, IntToString(n));
  }

  /** The maximum execution time per scheduler run: entered in minutes, stored in seconds. */
  const MAX_EXECUTION_TIME: ConversionSetting :=
    ConversionSetting("mod_ortattendance/max_execution_time", "50", 60)

  /** Its 50-minute default is stored as the 3000 seconds the scheduler falls back to. */
  lemma MaxExecutionTimeDefault()
    ensures AsStored(WriteSetting(MAX_EXECUTION_TIME, MAX_EXECUTION_TIME.default))
            == IntToString(SchedulerTask.DEFAULT_MAX_EXECUTION_TIME)
    ensures GetSetting(MAX_EXECUTION_TIME, Some(IntToString(SchedulerTask.DEFAULT_MAX_EXECUTION_TIME)))
            == Some(Num(50))
  {
    assert NatToString(5) == "5";
    assert NatToString(50) == "50";
    assert IntToString(50) == MAX_EXECUTION_TIME.default;
    IntValOfIntToString(50);
    IntValOfIntToString(3000);
  }
}
