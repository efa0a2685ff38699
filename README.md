# Controller model

This project models the `Controller` of the modelling-and-simulation
application (`src/main/Controller.java`). A controller holds one instance of
a model class. It binds data-file values onto the model's `@Bind` fields,
runs the model, and harvests every `double[]` field into an ordered store of
result series. It also runs scripts over those series and renders everything
as a tab-separated report.

The model has five modules:

- `Wrappers`: `Option`, `Result` and `Outcome` (a thrown exception becomes
  `Fail(error)`).
- `LinkedMaps`: `java.util.LinkedHashMap` with string keys. It is a table
  together with its insertion order, and `Put` keeps an existing key in place.
- `JavaText`: the `String` and `Integer` behaviour the controller relies on.
  That is `trim`, `startsWith`, `split("\\s+")`, `Integer.parseInt` (32-bit
  range, optional sign), `Integer.toString` and joining with a separator.
- `ControllerSpec`: what each operation computes, as functions of the
  controller's state, and the lemmas about them.
- `ControllerImpl`: the `Controller` class. Its mutable fields are the model
  instance's field values (`attrs`), the year axis (`years`) and the results
  store (`results`). Each method is proved against its `ControllerSpec`
  function, and the class invariant `Valid` is kept by every method.

The model class is given by its `@Bind` fields, in the order `getDeclaredFields` returns them: a name
and a kind, either the `int` horizon or a `double[]`. A Java `double` is
modelled as a `real`.

Four things are parameters:

- `Double.parseDouble` is a partial function `Parser`.
- The model's `run` method is a function `Run`. It returns the field values
  written before it returned or threw, and whether it threw.
- The Groovy engine is an optional `Engine`. Its `eval` maps the variable bag
  and the script text to the engine-scope bindings in the engine's iteration
  order, or to `None` when the script throws.
- `DecimalFormat` is a `Formatter`, applied to the pattern `roundValue`
  chooses.

A file is a sequence of lines.

## Model

| member | source | states |
|---|---|---|
| ControllerImpl.Controller.constructor | src/main/Controller.java:24-33 | a new instance: every `int` field is 0, every `double[]` field is null, there are no years and the results are empty |
| ControllerImpl.Controller.FindBindable | src/main/Controller.java:149-152 | the scan of the fields returns the first `@Bind` field with that name, as `Lookup` does |
| ControllerImpl.Controller.SetField | src/main/Controller.java:147-158 | the state afterwards is the one `Assign` gives. On success only the named field changes. On failure no field changes and the error is reported |
| ControllerImpl.Controller.GetField | src/main/Controller.java:160-171 | returns the `int` value of `LL` or the error `Horizon` gives |
| ControllerImpl.Controller.ParseValue | src/main/Controller.java:59-70 | the array built by the copy loop and `Arrays.fill` equals `FillSeries` at the current `LL`, and `getField`'s error is propagated |
| ControllerImpl.Controller.ReadHeaderLine | src/main/Controller.java:39-44 | the years and fields afterwards, and the outcome, are exactly those of `ReadHeader`. Years parsed before a bad token stay appended |
| ControllerImpl.Controller.ReadDataLine | src/main/Controller.java:45-50 | the fields afterwards, and the outcome, are exactly those of `ReadSeries` |
| ControllerImpl.Controller.ProcessLine | src/main/Controller.java:38-50 | a trimmed line is read as a header, as a data line or skipped, exactly as `ReadLine` says |
| ControllerImpl.Controller.ReadDataFrom | src/main/Controller.java:35-57 | the state and outcome after the loop over the lines are those of `Load`, which stops at the first line that throws |
| ControllerImpl.Controller.UpdateResults | src/main/Controller.java:81-95 | the results become the old results with each `double[]` field put in the order `getDeclaredFields` returns the fields, and the store stays a valid linked map |
| ControllerImpl.Controller.RunModel | src/main/Controller.java:72-79 | the run's writes persist. When the run throws, the outcome is `ModelFailed` and the results are unchanged. Otherwise the fields are harvested |
| ControllerImpl.Controller.UpdateResultsFromScript | src/main/Controller.java:174-180 | the results become the old results with each `double[]` binding put, in the engine's order |
| ControllerImpl.Controller.RunScript | src/main/Controller.java:107-128 | the results and the outcome are those of `Script` |
| ControllerImpl.Controller.ResultsBag | src/main/Controller.java:115-117 | the bag maps each result's name to its series |
| ControllerImpl.Controller.GetResultsAsTsv | src/main/Controller.java:182-199 | returns `Report` of the years and results; the state is unchanged |
| ControllerImpl.Controller.HeaderText | src/main/Controller.java:187-189 | the `StringBuilder` loop builds `HeaderLine(years)` |
| ControllerImpl.Controller.RowLines | src/main/Controller.java:191-197 | the `forEach` over the results builds `RowsText`, one line per key in order |
| ControllerImpl.Controller.JoinRendered | src/main/Controller.java:193-195 | the joined row is the rendered values joined by tabs |
| ControllerSpec.Lookup | src/main/Controller.java:149-152 | the found index holds the name and no earlier field does; none is found iff no field has the name |
| ControllerSpec.InitialAttrs | src/main/Controller.java:29 | a new instance has exactly the declared fields, each at its default value |
| ControllerSpec.Assign | src/main/Controller.java:147-158 | succeeds iff a field with that name exists and its type accepts the value. An unknown name gives `NoSuchField`, a type mismatch gives `IllegalArgument`. On success only that field changes |
| ControllerSpec.Horizon | src/main/Controller.java:160-171 | `NoSuchField` iff there is no `LL` field; succeeds iff `LL` holds an `int`, and returns it; a null `LL` gives `NullPointer` (the unboxing at lines 60 and 119), and `ClassCast` iff `LL` is declared but holds neither an `int` nor null |
| ControllerSpec.ParseAll | src/main/Controller.java:62-63 | succeeds iff every token parses, with the values in order. Otherwise it reports the first token refused |
| ControllerSpec.FillSeries | src/main/Controller.java:59-70 | a negative `LL` is `NegativeArraySize`. Success holds exactly `LL` values: the parsed values in front, then the last one repeated. Succeeds iff every token within the horizon parses and the line is long enough or has a value. A name-only line with positive `LL` is `IndexOutOfBounds` |
| ControllerSpec.FillSeriesFirstBad | src/main/Controller.java:62-63 | the first value token within the horizon that `Double.parseDouble` refuses is the one reported |
| ControllerSpec.FillSeriesIsDetermined | src/main/Controller.java:61-68 | any series of length `LL` with the parsed prefix and the forward fill is the result |
| ControllerSpec.FillSeriesIgnoresExtra | src/main/Controller.java:62 | tokens past the horizon are never read: dropping them gives the same result |
| ControllerSpec.AppendYears | src/main/Controller.java:41-43 | the year list only grows, and every entry stays a 32-bit int |
| ControllerSpec.AppendYearsPass | src/main/Controller.java:41-43 | passes iff every token parses; then every year is appended in order |
| ControllerSpec.AppendYearsFail | src/main/Controller.java:41-43 | on failure, the error names the first refused token. The earlier years are kept, and the values of the tokens before the refused one stay appended, in order |
| ControllerSpec.ReadHeader | src/main/Controller.java:39-44 | a header only extends the year axis and keeps the set of fields |
| ControllerSpec.ReadSeries | src/main/Controller.java:45-50 | a data line never touches the years. It passes iff `LL` reads, `FillSeries` at that `LL` succeeds and the field named by the first token accepts the array; the fields afterwards are exactly `Assign` of that forward-filled series. A `getField` or number error is reported as such, and on any failure the state is unchanged |
| ControllerSpec.ReadLine | src/main/Controller.java:38-50 | one line only extends the years, keeps them 32-bit and keeps the set of fields |
| ControllerSpec.Load | src/main/Controller.java:35-57 | reading a file only extends the years, keeps them 32-bit and keeps the set of fields |
| ControllerSpec.ReadLineHeader | src/main/Controller.java:38-40 | a trimmed line starting with "LATA" is read as a header, split on whitespace |
| ControllerSpec.ReadLineData | src/main/Controller.java:45-48 | any other non-empty trimmed line is read as a data line |
| ControllerSpec.ReadHeaderAppends | src/main/Controller.java:40-44 | a header whose year tokens all parse extends the axis by those years, in order. Earlier years are kept, and `LL` becomes the new axis length |
| ControllerSpec.HeaderRoundTrip | src/main/Controller.java:39-44 | the header line the report writes reads back, after any earlier headers, as the same years appended, with `LL` set to the total |
| ControllerSpec.YearStrings | src/main/Controller.java:188 | each year is written as `Integer.toString` writes it |
| ControllerSpec.HeaderLine | src/main/Controller.java:187-188 | the report header starts with "LATA"; its layout is stated by `HeaderLineJoin` and its round trip by `HeaderRoundTrip` |
| ControllerSpec.HeaderLineJoin | src/main/Controller.java:187-188 | the report header is "LATA" and the years, joined by tabs |
| ControllerSpec.HeaderLineOneLine | src/main/Controller.java:187-189 | the header holds no newline before its terminator |
| ControllerSpec.HeaderWords | src/main/Controller.java:38-40 | the header line is its own trim, and it splits into "LATA" and the year strings |
| ControllerSpec.AppendYearStrings | src/main/Controller.java:41-43 | parsing the written years gives back exactly those years |
| ControllerSpec.LoadTwoLines | src/main/Controller.java:37-51 | the second line is read only when the first one did not throw, starting from the state the first one left |
| ControllerSpec.ReadUnknownName | src/main/Controller.java:45-49 | a data line whose name is no `@Bind` field fails, whether on a number or on the name, and leaves the state unchanged |
| ControllerSpec.FieldEntries | src/main/Controller.java:82-87 | one entry per field in the order `getDeclaredFields` returns them, holding the field's name and its current value (`Null` for a name absent from the field values, which the class invariant `Valid` excludes) |
| ControllerSpec.HarvestFields | src/main/Controller.java:84-90 | after `updateResults`, every field holding a `double[]` has its own array in the store under its name, and every other name in the store was there before |
| ControllerSpec.MergeArrays | src/main/Controller.java:84-90 | `results.put` of each `double[]` entry in turn; its properties are stated by `MergeTable`, `MergeValid`, `MergeKeepsOrder` and `HarvestIdempotent` |
| ControllerSpec.MergeTable | src/main/Controller.java:88-90 | after harvesting, a name holds the last `double[]` bound to it, or otherwise its old series. Other values never enter the store |
| ControllerSpec.MergeValid | src/main/Controller.java:89 | harvesting keeps the store a valid linked map |
| ControllerSpec.MergeKeepsOrder | src/main/Controller.java:89 | existing results keep their positions, and new names go after them |
| ControllerSpec.HarvestIdempotent | src/main/Controller.java:174-180 | harvesting the same entries with distinct names twice gives the same store as harvesting them once |
| ControllerSpec.UpdateResultsIdempotent | src/main/Controller.java:81-95 | a second `updateResults` with unchanged fields changes nothing, order included |
| ControllerSpec.Overlay | src/main/Controller.java:74 | the run writes only declared fields; a field it did not write keeps its value |
| ControllerSpec.ScriptBag | src/main/Controller.java:115-120 | the script sees every result under its name, and `LL` as an `int` overriding any series of that name |
| ControllerSpec.Script | src/main/Controller.java:107-128 | no engine gives `EngineNotFound`, a `getField` error is propagated, and a throwing script gives `ScriptFailed`. It passes iff the engine exists, `LL` reads and the script returns, and then the results are `MergeArrays` over the engine's bindings. Any failure leaves the results unchanged |
| ControllerSpec.ScriptNeverDrops | src/main/Controller.java:122-127 | a script never removes or reorders a result, and the store stays valid |
| ControllerSpec.HorizonNeverHarvested | src/main/Controller.java:119-120 | the scalar `LL` never becomes a result unless the script rebinds it to a `double[]` |
| ControllerSpec.UnchangedScriptKeepsResults | src/main/Controller.java:115-124 | a script that leaves every variable as it found it leaves the results exactly as they were, in whatever order the engine lists them |
| ControllerSpec.FractionDigits | src/main/Controller.java:137-143 | 1 fractional digit from 10 up, 2 in [1, 10), 3 below 1 (negatives included) |
| ControllerSpec.Pattern | src/main/Controller.java:137-143 | the pattern is "#,##0." followed by that many '#' |
| ControllerSpec.FractionDigitsMonotone | src/main/Controller.java:137-143 | a larger value never keeps more fractional digits |
| ControllerSpec.Rendered | src/main/Controller.java:193-194 | each value is rendered with its own band's pattern, in order |
| ControllerSpec.RoundValue | src/main/Controller.java:137-144 | formats a value with the pattern of its band, as chosen by `Pattern` and `FractionDigits` |
| ControllerSpec.RowText | src/main/Controller.java:192-196 | one report line: the name, a tab, the rendered values joined by tabs, a newline |
| ControllerSpec.RowsText | src/main/Controller.java:191-197 | the rows are empty iff there are no results, and otherwise end with a newline |
| ControllerSpec.Report | src/main/Controller.java:182-185 | fails, with the empty-years error, exactly when no year has been read |
| ControllerSpec.RowsTextLines | src/main/Controller.java:191-197 | if no name or rendered value holds a newline, the rows hold exactly one newline per result |
| ControllerSpec.ReportLines | src/main/Controller.java:182-199 | if no name or rendered value holds a newline, the report has one line for the header plus one per result, newline-terminated |
| JavaText.StartsWith | src/main/Controller.java:39 | `String.startsWith`: the string is at least as long as the prefix and begins with it |
| JavaText.Trim | src/main/Controller.java:38 | the trimmed line starts and ends above U+0020, and it is empty iff every character is at or below U+0020 |
| JavaText.Words | src/main/Controller.java:40 | `split("\\s+")` on a trimmed line: non-empty tokens, none holding a whitespace character |
| JavaText.WordsOfJoin | src/main/Controller.java:188 | splitting words joined by a whitespace separator gives back the words |
| JavaText.JoinWith | src/main/Controller.java:195 | `Collectors.joining`: no words give the empty string, otherwise the result starts with the first word; `WordsOfJoin` and `JoinWithSnoc` pin down the rest |
| JavaText.ParseInt | src/main/Controller.java:42 | `Integer.parseInt` yields only 32-bit values |
| JavaText.ParseIntAccepts | src/main/Controller.java:42 | an accepted token is an optional sign followed by decimal digits |
| JavaText.DigitsValueAccepts | src/main/Controller.java:42 | a digit string has a value iff every character is an ASCII digit |
| JavaText.ParseIntOfString | src/main/Controller.java:188 | `Integer.parseInt(Integer.toString(n)) == n` for every 32-bit `n` |
| JavaText.IntToString | src/main/Controller.java:188 | `Integer.toString`: an optional minus sign, then the decimal digits; `IntToStringVisible` and `ParseIntOfString` state its properties |
| JavaText.IntToStringVisible | src/main/Controller.java:188 | a written year is non-empty, holds no whitespace and no newline, and ends above U+0020 |
| LinkedMaps.LinkedMap.Put | src/main/Controller.java:89 | `LinkedHashMap.put` keeps the map valid, stores the value and keeps other entries. An existing key keeps its place, and a new key goes last |
| LinkedMaps.PutEntries | src/main/Controller.java:177 | in iteration order, put appends a new entry or replaces one in place |

## Left out

- The GUI and the application entry point are not modelled. Only the `Controller` class is.
- The model class and its fields: `Class.forName` and reflection are not modelled. The model class is given as its list of `@Bind` fields, which Java guarantees to have distinct names. A missing class, a missing no-argument constructor and `IllegalAccessException` are not modelled.
- The model's `run` method: its computation is a parameter. Only its writes to fields, and whether it threw, are observed.
- The Groovy engine: its evaluation is a parameter. The order of the engine-scope bindings is the engine's.
- `runScriptFromFile` and file access (`Scanner`, `Files.readString`, `FileNotFoundException`, `IOException`) are not modelled. A data file is its sequence of lines, and a script is its text.
- `Double.parseDouble` and `DecimalFormat` are parameters. Their rounding, grouping and locale behaviour is not modelled.
- `JavaText.ParseInt`: only ASCII digits are accepted. `Integer.parseInt` also accepts digits of other Unicode scripts.
- Arrays are values. A model or script that keeps a reference to a stored `double[]` and changes it in place would change the results store in Java, and the model does not capture this aliasing.
- Exception wrapping and messages are not modelled. Each `RuntimeException` is reduced to the kind of error that caused it.
- ControllerSpec.FractionDigits and the `Parser` type: a Java `double` is a `real`, so NaN, the infinities and -0.0 are not modelled. `Double.parseDouble` accepts "NaN" and "Infinity", and `roundValue` puts NaN in the three-digit band because both of its comparisons are false; the model cannot express either.
- ControllerSpec.Overlay: the model's run may write any value to a declared field, including ones the field's Java type forbids (an `int` into a `double[]` field, or another object). Java's types rule these out. Without such writes, `Horizon`'s `ClassCast` case arises only when the field `LL` is declared as a `double[]` and holds an array.
- The order of the fields: `getDeclaredFields` returns the fields in no particular order, as the JDK documents it. The sequence `fields` stands for whatever order one run returns, which in practice is usually declaration order. That order decides where new results go in the store, and so the row order of the report. The model does not promise that it is declaration order.
- ControllerSpec.InitialAttrs: `newInstance` runs the model class's no-argument constructor and its field initializers. These could set `@Bind` fields or throw. The model assumes they leave every field at Java's default (0 for `int`, null for `double[]`), which is the zero-initialized model instance the controller expects. Initializers that set fields, and a constructor that throws, are not modelled.
- Reading two header lines is stated one line at a time. `HeaderRoundTrip` holds for any earlier state, and `LoadTwoLines` composes lines, but there is no single lemma for a whole two-header file.
