# SmartHouse telemetry reader — a Dafny model

The SmartHouse reader listens to a microcontroller over a serial line and reads
it line by line. `read_serial` gathers the stripped lines into a text buffer. A
line starting with `====` clears the buffer first. Whenever a line contains
`lux)`, the reader cuts five fields out of the buffer with chained
`split`/`strip` calls and converts them: temperature, humidity, air quality,
light percentage, and the illuminance, which it takes from the first `(` in the
buffer to the next `lux`. If all five conversions succeed, one
`SensorData` row is stored. Otherwise the exception is logged.

The project models that loop and that extraction:

- `py_str.dfy` (module `PyStr`): the Python string operations the reader uses.
  These are `p in s`, `s.startswith(p)`, `s.split(sep)` (with `sep.join` as its
  inverse) and `s.strip()` with Python's whitespace set.
- `int_literal.dfy` (module `IntLiteral`): `int(token)` on an optional sign
  followed by ASCII digits, and `str(n)` as its inverse.
- `frame_parser.dfy` (module `FrameParser`): the five field extractions and the
  all-or-nothing result. A position-based reference definition of each field's
  text is proved equal to the chained splits. The module also proves that a
  field is found by its label wherever its line sits, and that the first of two
  buffered reports decides the values.
- `frame_accumulator.dfy` (module `FrameAccumulator`): the buffer as a class
  `Accumulator` whose `Feed` method takes one line. `ReadSerial` is the read
  loop over a finite run of lines. These are proved against the functions
  `BufferAfter` and `Attempts`, and lemmas state what those functions hold.

Python's `float()` is the parameter `toDecimal`: a partial function from the
token to a real, `None` where `float()` raises. The reading record has the
columns of the `SensorData` table, without `id` and `timestamp`.

Points of the reader's behaviour that the model keeps as they are:

- The labels are the Polish ones the code searches for: `Temperatura:`,
  `Wilgotność:`, `Jakość powietrza:` and `Natężenie światła:`.
- The buffer is cleared only by a start-marker line. It is not cleared after a
  parse attempt, successful or not.
- Lux must be an integer literal. A token such as `500.0` fails the whole frame.
- No motion field is parsed.
- A field's text runs from the first occurrence of its label to the first
  terminator after it. But `split(label)[1]` also stops at the label's second
  occurrence. So with a label repeated before its terminator, the token ends at
  that repeat (`LabelledText` states this).

## Model

| member | source | states |
|---|---|---|
| PyStr.FindFrom | serial_reader.py:24 | the result is the first index at or after `k` where `p` occurs, and `None` exactly when `p` occurs at no such index |
| PyStr.Find | serial_reader.py:24 | the first occurrence of `p` in `s`, with no occurrence before it |
| PyStr.ContainsOccurs | serial_reader.py:24 | `p in s` holds exactly when `p` occurs at some index of `s` |
| PyStr.StartsWithOccurs | serial_reader.py:20 | `startswith` holds exactly when the prefix occurs at index 0, the search then finds it there, and every string starts with itself |
| PyStr.Split | serial_reader.py:26-30 | `split` gives at least one piece, and at least two exactly when the separator occurs |
| PyStr.SplitJoin | serial_reader.py:26-30 | joining the pieces with the separator gives back the original string |
| PyStr.SplitPiecesFree | serial_reader.py:26-30 | no piece of a split contains the separator |
| PyStr.SplitFirst | serial_reader.py:26-30 | piece `[0]` is the text before the first occurrence, or the whole string when there is none |
| PyStr.SplitSecond | serial_reader.py:26-30 | piece `[1]` runs from the end of the first occurrence to the next occurrence, or to the end of the string |
| PyStr.FindAppend | serial_reader.py:26-30 | appending text after an occurrence does not move the first occurrence |
| PyStr.FindBehindPrefix | serial_reader.py:26-30 | a prefix without an occurrence, ending outside the separator's characters, only shifts the first occurrence |
| PyStr.SplitFirstExtends | serial_reader.py:26-30 | with no occurrence in `s`, the first piece of `s + t` is `s` followed by the first piece of `t` |
| PyStr.Strip | serial_reader.py:26-30 | `strip()` never lengthens, and its result neither starts nor ends with whitespace |
| PyStr.StripPadded | serial_reader.py:26-30 | stripping whitespace-padded text whose ends are not whitespace gives exactly that text |
| PyStr.StripIdempotent | serial_reader.py:26-30 | stripping twice is stripping once |
| IntLiteral.ParseInt | serial_reader.py:30 | a token is accepted exactly when it is an optional sign followed by one or more ASCII digits, and it is negative only with a leading `-` |
| IntLiteral.SignedDigits | serial_reader.py:30 | a digit string reads as its decimal value, `+d` reads as `d`, and `-d` as minus the value of `d` |
| IntLiteral.ZeroPadded | serial_reader.py:30 | leading zeros are accepted and do not change the value |
| IntLiteral.ParseIntRoundTrip | serial_reader.py:30 | `int(str(n)) == n` for every integer `n`, with no limit on the number of digits |
| IntLiteral.DecimalPointRejected | serial_reader.py:30 | a token with a decimal point is not an integer |
| FrameParser.FieldToken | serial_reader.py:26-30 | a field yields a token exactly when its label occurs, and otherwise the missing-label error; the token has no surrounding whitespace |
| FrameParser.ParseFrame | serial_reader.py:25-30 | without the temperature label the frame fails on it first; a reading implies all five labels occur |
| FrameParser.FieldTokenIsLabelledText | serial_reader.py:26-30 | the chained splits pick the text after the label's first occurrence, up to the first terminator before the label's next occurrence |
| FrameParser.ParseFrameOk | serial_reader.py:25-43 | a reading exists exactly when all five fields are found and convert, and each field then holds its own token's value |
| FrameParser.MissingLabelFails | serial_reader.py:25-46 | a frame lacking any of the five labels yields no reading; it fails on a missing label or on an earlier decimal field |
| FrameParser.DecimalLuxFails | serial_reader.py:30 | a lux token with a decimal point fails the whole frame |
| FrameParser.FieldTokenAppend | serial_reader.py:26-30 | lines appended after a closed field do not change its token |
| FrameParser.FieldTokenBehind | serial_reader.py:26-30 | lines before a field that do not mention its label do not change its token |
| FrameParser.FieldFromOwnLine | serial_reader.py:26-30 | a field's token is read from its own line wherever that line sits, when no earlier line mentions the label |
| FrameParser.FirstReportWins | serial_reader.py:26-30 | once every field of the buffer is closed, appended lines do not change the parse result |
| FrameAccumulator.FrameStart | serial_reader.py:20-21 | the current frame begins at the last start-marker line, or at the first line |
| FrameAccumulator.BufferIsCurrentFrame | serial_reader.py:20-22 | the buffer is exactly the lines from the last start marker on, each followed by a newline |
| FrameAccumulator.Accumulator.constructor | serial_reader.py:17 | the buffer starts empty |
| FrameAccumulator.Accumulator.Feed | serial_reader.py:20-24 | a start-marker line replaces the buffer with itself and a newline; any other line is appended; a parse is attempted exactly when the line contains `lux)`, on the new buffer, which the attempt leaves as it is |
| FrameAccumulator.ReadSerial | serial_reader.py:17-46 | the loop's parse results are, in order, those `Attempts` specifies for the lines read |
| FrameAccumulator.OneAttemptPerCompletionLine | serial_reader.py:24 | there is one parse attempt per line containing `lux)`, and no other |
| FrameAccumulator.FrameBuffer | serial_reader.py:20-22 | after any history, feeding a well-formed frame rebuilds the buffer from that frame's lines alone |
| FrameAccumulator.FramePrefix | serial_reader.py:20-24 | a well-formed frame causes no parse attempt before its last line |
| FrameAccumulator.OneFrameOneAttempt | serial_reader.py:17-24 | a well-formed frame after any history causes exactly one parse attempt, on exactly its own lines |
| FrameAccumulator.BufferGrows | serial_reader.py:22 | between start markers the buffer only grows: old contents are kept and new lines are appended |
| FrameAccumulator.SecondReportRepeatsFirst | serial_reader.py:20-30 | without a new start marker, a second report in the buffer parses to the first report's result |

## Left out

- Serial I/O and decoding (serial_reader.py:13 and 19) are not modelled. The model takes already decoded and stripped lines.
- The endless `while True` loop is modelled by `ReadSerial` over a finite run of lines.
- Python's `float()` is the parameter `toDecimal` and float values are reals. Float parsing and rounding are not modelled.
- IntLiteral.ParseInt: accepts only an optional sign followed by ASCII digits. It does not model underscores or non-ASCII digits.
- IntLiteral.ParseInt: has no limit on the number of digits. Python 3.11 and later raise `ValueError` in `int()` and `str()` beyond 4300 digits by default, so `ParseIntRoundTrip` covers integers Python itself refuses to convert.
- The database write, the Flask app context and the `datetime.now()` timestamp (serial_reader.py:7-10, 32-42 and 49-52) are not modelled. The reading holds the five parsed columns only.
- The success and error messages (serial_reader.py:44 and 46) are not modelled. A failure is an `Err` value naming the cause.
- `app.py`, `create_test_data_auto.py` and the other scripts of the repository are not part of this model. `models.py` is used only for the reading's shape.
