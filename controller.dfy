/**
 * The controller itself: one model instance whose @Bind fields it reads and
 * writes, the list of years read from the data file, and the ordered store
 * of result series. Each method is proved against the function in
 * ControllerSpec that says what it computes.
 */
module ControllerImpl {
  import opened Wrappers
  import opened JavaText
  import opened LinkedMaps
  import opened ControllerSpec

  class Controller {
    /** The model class's @Bind fields, in the order `getDeclaredFields` returns them. */
    const fields: seq<Field>
    /** The current value of each @Bind field of the model instance. */
    var attrs: map<string, Value>
    var years: seq<int>
    var results: Results

    ghost predicate Valid()
      reads this
    {
      && DistinctNames(fields)
      && attrs.Keys == Names(fields)
      && results.Valid()
      && AllInt32(years)
    }

    /** A fresh model instance, no years and no results. */
    constructor(fields: seq<Field>)
      requires DistinctNames(fields)
      ensures Valid()
      ensures this.fields == fields && attrs == InitialAttrs(fields)
      ensures years == [] && results == LinkedMap([], map[])
    {
      this.fields := fields;
      attrs := InitialAttrs(fields);
      years := [];
      results := LinkedMap([], map[]);
    }

    /** The first @Bind field called `name`, scanning the fields in the order `getDeclaredFields` returns them. */
    method FindBindable(name: string) returns (r: Option<nat>)
      ensures r == Lookup(fields, name)
    {
      var i := 0;
      while i < |fields|
        invariant 0 <= i <= |fields|
        invariant forall j :: 0 <= j < i ==> fields[j].name != name
      {
        if fields[i].name == name {
          assert name in Names(fields);
          return Some(i);
        }
        i := i + 1;
      }
      assert name !in Names(fields);
      return None;
    }

    /** setField: write `v` to the @Bind field called `name`, or report why it cannot be written. */
    method SetField(name: string, v: Value) returns (o: Outcome<Error>)
      requires Valid()
      modifies this`attrs
      ensures Valid()
      ensures match Assign(fields, old(attrs), name, v)
        case Ok(a) => o == Pass && attrs == a
        case Err(e) => o == Fail(e) && attrs == old(attrs)
    {
      var i := FindBindable(name);
      match i
      case None =>
        return Fail(NoSuchField(name));
      case Some(j) =>
        if !Accepts(fields[j].kind, v) {
          return Fail(IllegalArgument(name));
        }
        attrs := attrs[name := v];
        return Pass;
    }

    /**
     * getField: the `int` value of the field LL. The branches are those of
     * `Horizon`, with the field found by the `FindBindable` scan.
     */
    method GetField() returns (r: Result<int, Error>)
      ensures r == Horizon(fields, attrs)
    {
      var i := FindBindable(HorizonName);
      if i.None? {
        return Err(NoSuchField(HorizonName));
      }
      if HorizonName in attrs && attrs[HorizonName].Int? {
        return Ok(attrs[HorizonName].n);
      }
      if HorizonName in attrs && attrs[HorizonName].Null? {
        return Err(NullPointer);
      }
      return Err(ClassCast);
    }

    /**
     * parseValue: a new array of LL values, the line's values copied in
     * while both last, then the last copied value repeated to the end.
     */
    method ParseValue(parts: seq<string>, parse: Parser) returns (r: Result<Series, Error>)
      ensures r == match Horizon(fields, attrs)
        case Err(e) => Err(e)
        case Ok(ll) => FillSeries(parts, ll, parse)
    {
      var h := GetField();
      if h.Err? {
        return Err(h.error);
      }
      var ll := h.value;
      if ll < 0 {
        return Err(NegativeArraySize);
      }
      var values := new real[ll](_ => 0.0);
      var i := 1;
      while i < |parts| && i <= ll
        invariant 1 <= i <= ll + 1
        invariant i <= |parts| || i == 1
        invariant forall j :: 1 <= j < i ==> parse(parts[j]) == Some(values[j - 1])
      {
        match parse(parts[i])
        case None =>
          FillSeriesFirstBad(parts, ll, parse, i);
          return Err(NumberFormat(parts[i]));
        case Some(x) =>
          values[i - 1] := x;
        i := i + 1;
      }
      if |parts| - 1 < ll {
        if |parts| < 2 {
          return Err(IndexOutOfBounds);
        }
        var last := values[|parts| - 2];
        var k := |parts| - 1;
        while k < ll
          invariant |parts| - 1 <= k <= ll
          invariant values[|parts| - 2] == last
          invariant forall j :: 1 <= j < |parts| && j <= ll ==> parse(parts[j]) == Some(values[j - 1])
          invariant forall j :: |parts| - 1 <= j < k ==> values[j] == last
          modifies values
        {
          values[k] := last;
          k := k + 1;
        }
      }
      FillSeriesIsDetermined(parts, ll, parse, values[..]);
      return Ok(values[..]);
    }

    /** A header line: each year token appended in turn, then LL set to the number of years. */
    method ReadHeaderLine(parts: seq<string>) returns (o: Outcome<Error>)
      requires Valid() && parts != []
      modifies this`attrs, this`years
      ensures Valid()
      ensures (Loaded(years, attrs), o) == ReadHeader(fields, Loaded(old(years), old(attrs)), parts)
    {
      ghost var toks := parts[1..];
      var i := 1;
      while i < |parts|
        invariant 1 <= i <= |parts|
        invariant Valid() && attrs == old(attrs)
        invariant AppendYears(old(years), toks) == AppendYears(years, parts[i..])
      {
        assert parts[i..][1..] == parts[i + 1..];
        match ParseInt(parts[i])
        case None =>
          return Fail(NumberFormat(parts[i]));
        case Some(y) =>
          years := years + [y];
        i := i + 1;
      }
      o := SetField(HorizonName, Int(|years|));
    }

    /** A data line: the series parseValue builds, bound to the field its first token names. */
    method ReadDataLine(parts: seq<string>, parse: Parser) returns (o: Outcome<Error>)
      requires Valid() && parts != []
      modifies this`attrs
      ensures Valid()
      ensures (Loaded(years, attrs), o) == ReadSeries(fields, Loaded(years, old(attrs)), parts, parse)
    {
      var values := ParseValue(parts, parse);
      if values.Err? {
        return Fail(values.error);
      }
      o := SetField(parts[0], Doubles(values.value));
    }

    /** One line of the data file: a header, a data line, or an empty line that is skipped. */
    method ProcessLine(line: string, parse: Parser) returns (o: Outcome<Error>)
      requires Valid()
      modifies this`attrs, this`years
      ensures Valid()
      ensures (Loaded(years, attrs), o) == ReadLine(fields, Loaded(old(years), old(attrs)), line, parse)
    {
      ghost var st := Loaded(years, attrs);
      var t := Trim(line);
      if StartsWith(t, HeaderTag) {
        ReadLineHeader(fields, st, line, parse);
        o := ReadHeaderLine(Words(t));
      } else if t != [] {
        ReadLineData(fields, st, line, parse);
        o := ReadDataLine(Words(t), parse);
      } else {
        o := Pass;
      }
    }

    /**
     * readDataFrom: the file's lines in order. A line that throws ends the
     * reading; what earlier lines (and years of the same header) stored stays.
     */
    method ReadDataFrom(lines: seq<string>, parse: Parser) returns (o: Outcome<Error>)
      requires Valid()
      modifies this`attrs, this`years
      ensures Valid()
      ensures (Loaded(years, attrs), o) == Load(fields, Loaded(old(years), old(attrs)), lines, parse)
    {
      var i := 0;
      while i < |lines|
        invariant 0 <= i <= |lines|
        invariant Valid()
        invariant Load(fields, Loaded(old(years), old(attrs)), lines, parse)
               == Load(fields, Loaded(years, attrs), lines[i..], parse)
      {
        assert lines[i..][0] == lines[i] && lines[i..][1..] == lines[i + 1..];
        o := ProcessLine(lines[i], parse);
        if o.Fail? {
          return;
        }
        i := i + 1;
      }
      return Pass;
    }

    /** updateResults: every @Bind field holding a double[] is put into the results, in the order `getDeclaredFields` returns them. */
    method UpdateResults()
      requires Valid()
      modifies this`results
      ensures Valid()
      ensures results == MergeArrays(old(results), FieldEntries(fields, attrs))
    {
      ghost var es := FieldEntries(fields, attrs);
      var i := 0;
      while i < |fields|
        invariant 0 <= i <= |fields|
        invariant Valid()
        invariant MergeArrays(old(results), es) == MergeArrays(results, es[i..])
      {
        assert es[i..][0] == (fields[i].name, attrs[fields[i].name]) && es[i..][1..] == es[i + 1..];
        assert fields[i].name in Names(fields);
        var value := attrs[fields[i].name];
        if value.Doubles? {
          results := results.Put(fields[i].name, value.a);
        }
        i := i + 1;
      }
    }

    /**
     * runModel: the model's run writes its fields; when it returns, the
     * double[] fields are harvested; when it throws, what it wrote stays and
     * the results are untouched.
     */
    method RunModel(run: Run) returns (o: Outcome<Error>)
      requires Valid()
      modifies this`attrs, this`results
      ensures Valid()
      ensures attrs == Overlay(old(attrs), run(old(attrs)).written)
      ensures o.Fail? <==> run(old(attrs)).threw
      ensures o.Fail? ==> o == Fail(ModelFailed) && results == old(results)
      ensures o.Pass? ==> results == MergeArrays(old(results), FieldEntries(fields, attrs))
    {
      var out := run(attrs);
      attrs := Overlay(attrs, out.written);
      if out.threw {
        return Fail(ModelFailed);
      }
      UpdateResults();
      return Pass;
    }

    /** updateResultsFromScript: every script variable holding a double[] is put into the results, in the engine's order. */
    method UpdateResultsFromScript(bindings: seq<(string, Value)>)
      requires Valid()
      modifies this`results
      ensures Valid()
      ensures results == MergeArrays(old(results), bindings)
    {
      var i := 0;
      while i < |bindings|
        invariant 0 <= i <= |bindings|
        invariant Valid()
        invariant MergeArrays(old(results), bindings) == MergeArrays(results, bindings[i..])
      {
        assert bindings[i..][0] == bindings[i] && bindings[i..][1..] == bindings[i + 1..];
        var (key, value) := bindings[i];
        if value.Doubles? {
          results := results.Put(key, value.a);
        }
        i := i + 1;
      }
    }

    /**
     * runScript: hand every result and LL to the script engine, evaluate
     * the script, and harvest the double[] variables it leaves behind.
     */
    method RunScript(script: string, engine: Option<Engine>) returns (o: Outcome<Error>)
      requires Valid()
      modifies this`results
      ensures Valid()
      ensures (results, o) == Script(fields, attrs, old(results), script, engine)
    {
      if engine.None? {
        return Fail(EngineNotFound);
      }
      var bag := ResultsBag(results);
      var h := GetField();
      if h.Err? {
        return Fail(h.error);
      }
      bag := bag[HorizonName := Int(h.value)];
      var out := engine.value(bag, script);
      if out.None? {
        return Fail(ScriptFailed);
      }
      UpdateResultsFromScript(out.value);
      return Pass;
    }

    /**
     * getResultsAsTsv: "LATA" and the years, then each result's name and
     * rounded values, tab-separated, one line each.
     */
    method GetResultsAsTsv(format: Formatter) returns (r: Result<string, Error>)
      requires Valid()
      ensures r == Report(years, results, format)
    {
      if |years| == 0 {
        return Err(EmptyYears);
      }
      var header := HeaderText(years);
      var rows := RowLines(results.keys, results.table, format);
      return Ok(header + "\n" + rows);
    }

    /** `results.forEach((key, value) -> engine.put(key, value))`: every result under its name. */
    static method ResultsBag(results: Results) returns (bag: map<string, Value>)
      requires results.Valid()
      ensures bag == map k | k in results.table :: Doubles(results.table[k])
    {
      bag := map[];
      var i := 0;
      while i < |results.keys|
        invariant 0 <= i <= |results.keys|
        invariant bag == map k | k in results.keys[..i] :: Doubles(results.table[k])
      {
        var key := results.keys[i];
        assert results.keys[..i + 1] == results.keys[..i] + [key];
        bag := bag[key := Doubles(results.table[key])];
        i := i + 1;
      }
      assert results.keys[..i] == results.keys;
    }

    /** `new StringBuilder("LATA")`, then a tab and each year in turn. */
    static method HeaderText(years: seq<int>) returns (s: string)
      ensures s == HeaderLine(years)
    {
      s := HeaderTag;
      var i := 0;
      while i < |years|
        invariant 0 <= i <= |years|
        invariant s == HeaderLine(years[..i])
      {
        assert years[..i + 1][..i] == years[..i];
        s := s + "\t" + IntToString(years[i]);
        i := i + 1;
      }
      assert years[..i] == years;
    }

    /** `results.forEach(...)`: each name, a tab, its joined values and a newline, in order. */
    static method RowLines(keys: seq<string>, table: map<string, Series>, format: Formatter) returns (s: string)
      requires forall i :: 0 <= i < |keys| ==> keys[i] in table
      ensures s == RowsText(keys, table, format)
    {
      s := [];
      var k := 0;
      while k < |keys|
        invariant 0 <= k <= |keys|
        invariant s == RowsText(keys[..k], table, format)
      {
        var key := keys[k];
        var joined := JoinRendered(table[key], format);
        RowsTextSnoc(keys, table, format, k);
        s := s + (key + "\t" + joined + "\n");
        k := k + 1;
      }
      assert keys[..k] == keys;
    }

    /** `Arrays.stream(values).mapToObj(roundValue).collect(joining("\t"))`. */
    static method JoinRendered(values: Series, format: Formatter) returns (s: string)
      ensures s == JoinWith(Rendered(values, format), '\t')
    {
      s := [];
      var j := 0;
      while j < |values|
        invariant 0 <= j <= |values|
        invariant s == JoinWith(Rendered(values[..j], format), '\t')
      {
        var piece := RoundValue(values[j], format);
        assert Rendered(values[..j + 1], format) == Rendered(values[..j], format) + [piece];
        if j == 0 {
          s := piece;
        } else {
          JoinWithSnoc(Rendered(values[..j], format), piece, '\t');
          s := s + "\t" + piece;
        }
        j := j + 1;
      }
      assert values[..j] == values;
    }
  }
}
