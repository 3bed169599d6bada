/** The field extraction of the telemetry reader: a completed frame buffer is turned
    into one sensor reading, or into the first error met, with nothing in between. */
module FrameParser {
  import opened PyStr
  import opened IntLiteral

  const TemperatureLabel := "Temperatura:"
  const TemperatureUnit := "°C"
  const HumidityLabel := "Wilgotność:"
  const AirQualityLabel := "Jakość powietrza:"
  const LightLabel := "Natężenie światła:"
  const PercentUnit := "%"
  /** The illuminance in lux is the text between the first `(` and the next `lux`. */
  const LuxOpen := "("
  const LuxUnit := "lux"

  /** One stored sensor reading, shaped like the `SensorData` table row
      (its `id` and `timestamp` columns are assigned outside the parser). */
  datatype Reading = Reading(
    temperature: real,
    humidity: real,
    airQuality: real,
    lightPercent: real,
    lux: int)

  /** Why a frame gave no reading: the exception the reader catches and logs. */
  datatype ParseError =
    | MissingLabel(name: string)   // `split(name)[1]` raises IndexError
    | NotADecimal(token: string)    // `float(token)` raises ValueError
    | NotAnInteger(token: string)   // `int(token)` raises ValueError

  datatype Result<+T> = Ok(value: T) | Err(error: ParseError) {
    predicate IsFailure() { Err? }
    function PropagateFailure<U>(): Result<U> requires Err? { Err(error) }
    function Extract(): T requires Ok? { value }
  }

  /** A field's token: split the buffer on the label, take the second piece, split that
      on the terminator, take the first piece and strip it. */
  function FieldToken(buffer: string, name: string, terminator: string): (r: Result<string>)
    requires name != [] && terminator != []
    ensures r.Ok? <==> Contains(buffer, name)
    ensures r.Err? ==> r.error == MissingLabel(name)
    ensures r.Ok? ==> r.value == [] || (!IsSpace(r.value[0]) && !IsSpace(r.value[|r.value| - 1]))
  {
    var pieces := Split(buffer, name);
    if |pieces| < 2 then Err(MissingLabel(name))
    else Ok(Strip(Split(pieces[1], terminator)[0]))
  }

  /** A decimal field's token converted by `toDecimal`, which stands for Python's
      `float()`: `None` where `float()` raises. */
  function DecimalValue(token: Result<string>, toDecimal: string -> Option<real>): (r: Result<real>) {
    var text :- token;
    match toDecimal(text)
    case None => Err(NotADecimal(text))
    case Some(v) => Ok(v)
  }

  /** The lux token converted by `int()`. */
  function IntegerValue(token: Result<string>): (r: Result<int>) {
    var text :- token;
    match ParseInt(text)
    case None => Err(NotAnInteger(text))
    case Some(n) => Ok(n)
  }

  /** The conversions in the order the reader runs them; the first that fails decides
      the error, and a reading is built only when all five succeed. */
  function ReadingFrom(temperature: Result<string>, humidity: Result<string>,
                       airQuality: Result<string>, lightPercent: Result<string>,
                       lux: Result<string>, toDecimal: string -> Option<real>): (r: Result<Reading>)
  {
    var t :- DecimalValue(temperature, toDecimal);
    var h :- DecimalValue(humidity, toDecimal);
    var a :- DecimalValue(airQuality, toDecimal);
    var l :- DecimalValue(lightPercent, toDecimal);
    var x :- IntegerValue(lux);
    Ok(Reading(t, h, a, l, x))
  }

  /** The five extractions of a frame buffer, in the reader's order. */
  function ParseFrame(buffer: string, toDecimal: string -> Option<real>): (r: Result<Reading>)
    ensures Contains(buffer, TemperatureLabel) || r == Err(MissingLabel(TemperatureLabel))
    ensures r.Ok? ==> (Contains(buffer, HumidityLabel) && Contains(buffer, AirQualityLabel) &&
                       Contains(buffer, LightLabel) && Contains(buffer, LuxOpen))
  {
    ReadingFrom(
      FieldToken(buffer, TemperatureLabel, TemperatureUnit),
      FieldToken(buffer, HumidityLabel, PercentUnit),
      FieldToken(buffer, AirQualityLabel, PercentUnit),
      FieldToken(buffer, LightLabel, PercentUnit),
      FieldToken(buffer, LuxOpen, LuxUnit),
      toDecimal)
  }

  /** Reference definition of a field's text by positions in the buffer: after the first
      occurrence of the label, up to the first terminator that lies wholly before the
      label's next occurrence (or, with no such terminator, up to that next occurrence,
      or to the end of the buffer), with surrounding whitespace removed. */
  function LabelledText(buffer: string, name: string, terminator: string): Option<string> {
    match Find(buffer, name)
    case None => None
    case Some(i) =>
      var start := i + |name|;
      var end := NextOrEnd(buffer, name, start);
      Some(Strip(buffer[start..NextOrEnd(buffer[..end], terminator, start)]))
  }

  /** The first piece of splitting `buffer[start..end]`, in positions of `buffer`. */
  lemma FirstPieceOfSlice(buffer: string, start: nat, end: nat, terminator: string)
    requires start <= end <= |buffer| && terminator != []
    ensures Split(buffer[start..end], terminator)[0] ==
            buffer[start..NextOrEnd(buffer[..end], terminator, start)]
  {
    var piece := buffer[start..end];
    assert buffer[..end][start..] == piece;
    FindShift(buffer[..end], terminator, start);
    SplitFirst(piece, terminator);
    match FindFrom(buffer[..end], terminator, start)
    case None =>
    case Some(j) =>
      assert piece[..j - start] == buffer[start..j];
  }

  /** The chained splits pick exactly the text the reference definition describes. */
  lemma FieldTokenIsLabelledText(buffer: string, name: string, terminator: string)
    requires name != [] && terminator != []
    ensures FieldToken(buffer, name, terminator) ==
      match LabelledText(buffer, name, terminator)
      case None => Err(MissingLabel(name))
      case Some(t) => Ok(t)
  {
    match Find(buffer, name)
    case None =>
    case Some(i) =>
      var start := i + |name|;
      var end := NextOrEnd(buffer, name, start);
      var stop := NextOrEnd(buffer[..end], terminator, start);
      SplitSecond(buffer, name, i);
      FirstPieceOfSlice(buffer, start, end, terminator);
      var text := Strip(buffer[start..stop]);
      assert LabelledText(buffer, name, terminator) == Some(text);
      assert Split(Split(buffer, name)[1], terminator)[0] == buffer[start..stop];
      assert FieldToken(buffer, name, terminator) == Ok(text);
  }

  /** All or nothing: a frame yields a reading exactly when every label is present and
      every token converts, and then each field holds its own token's value. */
  lemma ParseFrameOk(buffer: string, toDecimal: string -> Option<real>)
    ensures ParseFrame(buffer, toDecimal).Ok? <==>
      (var t, h, a, l, x :=
         LabelledText(buffer, TemperatureLabel, TemperatureUnit),
         LabelledText(buffer, HumidityLabel, PercentUnit),
         LabelledText(buffer, AirQualityLabel, PercentUnit),
         LabelledText(buffer, LightLabel, PercentUnit),
         LabelledText(buffer, LuxOpen, LuxUnit);
       t.Some? && h.Some? && a.Some? && l.Some? && x.Some? &&
       toDecimal(t.value).Some? && toDecimal(h.value).Some? && toDecimal(a.value).Some? &&
       toDecimal(l.value).Some? && ParseInt(x.value).Some?)
    ensures ParseFrame(buffer, toDecimal).Ok? ==>
      ParseFrame(buffer, toDecimal).value == Reading(
        toDecimal(LabelledText(buffer, TemperatureLabel, TemperatureUnit).value).value,
        toDecimal(LabelledText(buffer, HumidityLabel, PercentUnit).value).value,
        toDecimal(LabelledText(buffer, AirQualityLabel, PercentUnit).value).value,
        toDecimal(LabelledText(buffer, LightLabel, PercentUnit).value).value,
        ParseInt(LabelledText(buffer, LuxOpen, LuxUnit).value).value)
  {
    FieldTokenIsLabelledText(buffer, TemperatureLabel, TemperatureUnit);
    FieldTokenIsLabelledText(buffer, HumidityLabel, PercentUnit);
    FieldTokenIsLabelledText(buffer, AirQualityLabel, PercentUnit);
    FieldTokenIsLabelledText(buffer, LightLabel, PercentUnit);
    FieldTokenIsLabelledText(buffer, LuxOpen, LuxUnit);
  }

  /** A frame lacking any of the five labels gives no reading. */
  lemma MissingLabelFails(buffer: string, toDecimal: string -> Option<real>)
    requires !Contains(buffer, TemperatureLabel) || !Contains(buffer, HumidityLabel)
          || !Contains(buffer, AirQualityLabel) || !Contains(buffer, LightLabel)
          || !Contains(buffer, LuxOpen)
    ensures ParseFrame(buffer, toDecimal).Err?
    ensures ParseFrame(buffer, toDecimal).error.MissingLabel? ||
            ParseFrame(buffer, toDecimal).error.NotADecimal?
  {
  }

  /** Lux must be an integer literal: a lux token such as `500.0` sinks the whole frame,
      however good the other four fields are. */
  lemma DecimalLuxFails(buffer: string, toDecimal: string -> Option<real>)
    requires LabelledText(buffer, LuxOpen, LuxUnit).Some?
    requires '.' in LabelledText(buffer, LuxOpen, LuxUnit).value
    ensures ParseFrame(buffer, toDecimal).Err?
  {
    ParseFrameOk(buffer, toDecimal);
    DecimalPointRejected(LabelledText(buffer, LuxOpen, LuxUnit).value);
  }

  /** The buffer ends where a line ends. */
  predicate EndsLine(s: string) {
    |s| > 0 && s[|s| - 1] == '\n'
  }

  /** The field's label occurs, and its terminator occurs before the label occurs again. */
  predicate FieldClosed(buffer: string, name: string, terminator: string)
    requires name != []
  {
    Contains(buffer, name) && Contains(Split(buffer, name)[1], terminator)
  }

  /** Lines after a closed field do not change its token. */
  lemma FieldTokenAppend(buffer: string, more: string, name: string, terminator: string)
    requires name != [] && terminator != [] && '\n' !in name
    requires EndsLine(buffer) && FieldClosed(buffer, name, terminator)
    ensures FieldToken(buffer + more, name, terminator) == FieldToken(buffer, name, terminator)
  {
    var y := AfterFirst(buffer, name);
    AfterFirstAppend(buffer, more, name);
    SplitSecondIsAfterFirst(buffer, name);
    SplitSecondIsAfterFirst(buffer + more, name);
    if Contains(y, name) {
      SplitFirstAppend(y, more, name);
    } else {
      ClosedFieldEndsLine(buffer, name, terminator);
      SplitFirstExtends(y, more, name);
      SplitFirst(y, name);
      SplitFirstAppend(y, Split(more, name)[0], terminator);
    }
  }

  /** The text after a label, in a buffer that ends a line, also ends a line. */
  lemma ClosedFieldEndsLine(buffer: string, name: string, terminator: string)
    requires name != [] && '\n' !in name
    requires EndsLine(buffer) && Contains(buffer, name)
    ensures EndsLine(AfterFirst(buffer, name))
  {
    var i := Find(buffer, name).value;
    assert buffer[i..i + |name|] == name;
    assert i + |name| < |buffer| by {
      assert buffer[i + |name| - 1] == name[|name| - 1];
    }
  }

  /** Lines before a field that do not mention its label do not change its token. */
  lemma FieldTokenBehind(before: string, buffer: string, name: string, terminator: string)
    requires name != [] && terminator != [] && '\n' !in name
    requires before == [] || EndsLine(before)
    requires !Contains(before, name)
    ensures FieldToken(before + buffer, name, terminator) == FieldToken(buffer, name, terminator)
  {
    FindBehindPrefix(before, buffer, name);
    if Contains(buffer, name) {
      AfterFirstBehind(before, buffer, name);
      SplitSecondIsAfterFirst(buffer, name);
      SplitSecondIsAfterFirst(before + buffer, name);
    }
  }

  /** Extraction is by label, not by position: a field's token is read from the field's
      own line wherever that line sits, as long as no earlier line mentions the label. */
  lemma FieldFromOwnLine(before: string, line: string, after: string,
                         name: string, terminator: string)
    requires name != [] && terminator != [] && '\n' !in name
    requires before == [] || EndsLine(before)
    requires !Contains(before, name)
    requires EndsLine(line) && FieldClosed(line, name, terminator)
    ensures FieldToken(before + line + after, name, terminator) == FieldToken(line, name, terminator)
  {
    assert before + line + after == before + (line + after);
    FieldTokenBehind(before, line + after, name, terminator);
    FieldTokenAppend(line, after, name, terminator);
  }

  /** No label spans a line break. */
  lemma LabelsOnOneLine()
    ensures '\n' !in TemperatureLabel && '\n' !in HumidityLabel && '\n' !in AirQualityLabel
    ensures '\n' !in LightLabel && '\n' !in LuxOpen
  {
  }

  /** Every field of the report is closed in `buffer`. */
  predicate ReportClosed(buffer: string) {
    FieldClosed(buffer, TemperatureLabel, TemperatureUnit) &&
    FieldClosed(buffer, HumidityLabel, PercentUnit) &&
    FieldClosed(buffer, AirQualityLabel, PercentUnit) &&
    FieldClosed(buffer, LightLabel, PercentUnit) &&
    FieldClosed(buffer, LuxOpen, LuxUnit)
  }

  /** With two reports in one buffer, the first report's values are the ones parsed:
      once every field is closed, later lines change nothing, success or failure. */
  lemma FirstReportWins(buffer: string, more: string, toDecimal: string -> Option<real>)
    requires EndsLine(buffer) && ReportClosed(buffer)
    ensures ParseFrame(buffer + more, toDecimal) == ParseFrame(buffer, toDecimal)
  {
    LabelsOnOneLine();
    FieldTokenAppend(buffer, more, TemperatureLabel, TemperatureUnit);
    FieldTokenAppend(buffer, more, HumidityLabel, PercentUnit);
    FieldTokenAppend(buffer, more, AirQualityLabel, PercentUnit);
    FieldTokenAppend(buffer, more, LightLabel, PercentUnit);
    FieldTokenAppend(buffer, more, LuxOpen, LuxUnit);
  }
}
