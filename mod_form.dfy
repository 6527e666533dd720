/** `mod_ortattendance_mod_form`: the checks on a submitted activity form and the decoding of
    stored times into the hour and minute selectors. */
module ModForm {
  import opened Wrappers
  import opened Php
  import opened Lib

  /** The hour selector offers 0..23, the minute selector 00, 15, 30 and 45. */
  predicate SelectableHour(h: int) { 0 <= h < 24 }
  predicate SelectableMinute(m: int) { m == 0 || m == 15 || m == 30 || m == 45 }

  /** The submitted values `validation` reads. */
  datatype Submission = Submission(startDate: int, endDate: int,
                                   startHour: int, startMinute: int, endHour: int, endMinute: int)

  /** The language strings of the two errors. */
  const ERROR_DATERANGE: string := "error_daterange"
  const ERROR_TIMERANGE: string := "error_timerange"

  /** `validation`: to the parent's errors it adds an `end_date` error when the range of days
      is empty and an `end_time` error when the daily window is empty. */
  method Validation(data: Submission, parentErrors: map<string, string>) returns (errors: map<string, string>)
    ensures data.startDate >= data.endDate ==> "end_date" in errors && errors["end_date"] == ERROR_DATERANGE
    ensures EncodeTime(data.startHour, data.startMinute) >= EncodeTime(data.endHour, data.endMinute)
            ==> "end_time" in errors && errors["end_time"] == ERROR_TIMERANGE
    ensures errors.Keys == parentErrors.Keys
                           + (if data.startDate >= data.endDate then {"end_date"} else {})
                           + (if EncodeTime(data.startHour, data.startMinute) >= EncodeTime(data.endHour, data.endMinute)
                              then {"end_time"} else {})
    ensures forall k :: k in parentErrors && k != "end_date" && k != "end_time" ==> errors[k] == parentErrors[k]
    ensures data.startDate < data.endDate && "end_date" in parentErrors ==> errors["end_date"] == parentErrors["end_date"]
  {
    errors := parentErrors;
    if data.startDate >= data.endDate {
      errors := errors["end_date" := ERROR_DATERANGE];
    }
    var startTime := data.startHour * 3600 + data.startMinute * 60;
    var endTime := data.endHour * 3600 + data.endMinute * 60;
    if startTime >= endTime {
      errors := errors["end_time" := ERROR_TIMERANGE];
    }
  }

  /** For selectable values the time check compares the clock times: the window is rejected
      exactly when it does not end after it starts. */
  lemma TimeErrorMeansNotLater(data: Submission)
    requires SelectableMinute(data.startMinute) && SelectableMinute(data.endMinute)
    ensures EncodeTime(data.startHour, data.startMinute) >= EncodeTime(data.endHour, data.endMinute)
            <==> data.endHour < data.startHour || (data.endHour == data.startHour && data.endMinute <= data.startMinute)
  {
    EncodeTimeOrder(data.startHour, data.startMinute, data.endHour, data.endMinute);
    EncodeTimeInjective(data.startHour, data.startMinute, data.endHour, data.endMinute);
  }

  /** A value PHP's arithmetic produces: an integer, or a float when it is not exact. */
  datatype Number = Int(i: int) | Float(f: real)

  /** `floor($t / 3600)`: always a float. */
  function HourOf(t: int): (h: Number)
    ensures h.Float? && h.f == h.f.Floor as real && h.f.Floor * 3600 <= t < h.f.Floor * 3600 + 3600
  {
    Float((t / 3600) as real)
  }

  /** `($t % 3600) / 60`: PHP's `%` keeps the sign of `t`, and the division is exact only for
      whole minutes. */
  function MinuteOf(t: int): (m: Number)
  {
    var rest := TruncRem(t, 3600);
    if rest % 60 == 0 then Int(rest / 60) else Float(rest as real / 60.0)
  }

  /** `data_preprocessing`: for each of `start_time` and `end_time` present in the default
      values, sets the hour and minute selectors from it; other entries are kept. */
  method DataPreprocessing(defaults: map<string, Number>, startTime: Option<int>, endTime: Option<int>)
    returns (values: map<string, Number>)
    ensures startTime.Some? ==> "start_hour" in values && values["start_hour"] == HourOf(startTime.value)
                                && "start_minute" in values && values["start_minute"] == MinuteOf(startTime.value)
    ensures endTime.Some? ==> "end_hour" in values && values["end_hour"] == HourOf(endTime.value)
                              && "end_minute" in values && values["end_minute"] == MinuteOf(endTime.value)
    ensures values.Keys == defaults.Keys
                           + (if startTime.Some? then {"start_hour", "start_minute"} else {})
                           + (if endTime.Some? then {"end_hour", "end_minute"} else {})
    ensures forall k :: k in defaults && k !in {"start_hour", "start_minute", "end_hour", "end_minute"}
                        ==> values[k] == defaults[k]
  {
    values := defaults;
    if startTime.Some? {
      values := values["start_hour" := HourOf(startTime.value)];
      values := values["start_minute" := MinuteOf(startTime.value)];
    }
    if endTime.Some? {
      values := values["end_hour" := HourOf(endTime.value)];
      values := values["end_minute" := MinuteOf(endTime.value)];
    }
  }

  /** Decoding a stored time gives back the hour and the minute it was encoded from, for
      every time of day with whole minutes; in particular for every selectable hour and
      minute. */
  lemma DecodeEncode(hour: int, minute: int)
    requires hour >= 0 && 0 <= minute < 60
    ensures HourOf(EncodeTime(hour, minute)) == Float(hour as real)
    ensures MinuteOf(EncodeTime(hour, minute)) == Int(minute)
  {
    var t := EncodeTime(hour, minute);
    DivUnique(t, 3600, hour, minute * 60);
    assert TruncDiv(t, 3600) == hour;
    assert TruncRem(t, 3600) == minute * 60;
    DivUnique(minute * 60, 60, minute, 0);
  }

  lemma SelectableRoundTrip(hour: int, minute: int)
    requires SelectableHour(hour) && SelectableMinute(minute)
    ensures HourOf(EncodeTime(hour, minute)) == Float(hour as real)
    ensures MinuteOf(EncodeTime(hour, minute)) == Int(minute)
  {
    DecodeEncode(hour, minute);
  }
}
