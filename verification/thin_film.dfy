/**
 * The Thin_film record: its four fields, its text form (`__str__`), the constructor's
 * positional defaults, `Read`, the field-by-field overwrite `Write`, and the per-line
 * parse `Load_data` performs.
 */
module ThinFilm {
  import opened Wrappers
  import opened Strings
  import opened Numbers

  /** The exceptions the record code raises. */
  datatype Error = IndexError | ValueError | TypeError

  /**
   * What a numeric field holds: `Read` stores the raw text, `Load_data` and `Write`
   * store a float or an int.
   */
  datatype Value = Str(text: string) | Float(x: FloatValue) | Int(n: int)

  /** `str(value)`: a string shows as itself, and the text of a number never holds a comma. */
  function Show(v: Value): (s: string)
    ensures v.Str? ==> s == v.text
    ensures !v.Str? ==> ',' !in s
  {
    match v
    case Str(t) => t
    case Float(x) => ShowFloat(x)
    case Int(n) => ShowInt(n)
  }

  /** A thin film; the getters of the source are this datatype's field selectors. */
  datatype Film = Film(name: string, spectralRange: Value, index: Value, numberOfMaxima: Value)

  /** The constructor's default for the three numeric fields, the float 0.0. */
  const Zero: Value := Float(Decimal(false, 0, ""))

  /** `Thin_film()` with no arguments. */
  const Default: Film := Film("SiO2", Zero, Zero, Zero)

  /** The texts of the four fields, in the order the text form lists them. */
  function Texts(f: Film): seq<string>
  {
    [f.name, Show(f.spectralRange), Show(f.index), Show(f.numberOfMaxima)]
  }

  /** No field's text holds a comma. */
  predicate CommaFree(f: Film)
  {
    forall i :: 0 <= i < 4 ==> ',' !in Texts(f)[i]
  }

  /** `str(film)`: the four field texts, each after the first preceded by a comma. */
  function Serialize(f: Film): (line: string)
    ensures line == Join(Texts(f), ',')
  {
    var t := Texts(f);
    assert Join(t[2..], ',') == t[2] + "," + t[3] by {
      assert t[2..][1..] == [t[3]];
    }
    assert Join(t[1..], ',') == t[1] + "," + Join(t[2..], ',') by {
      assert t[1..][1..] == t[2..];
    }
    f.name + "," + Show(f.spectralRange) + "," + Show(f.index) + "," + Show(f.numberOfMaxima)
  }

  /** Splitting the text form on commas gives back the four field texts, in order. */
  lemma SerializeSplit(f: Film)
    requires CommaFree(f)
    ensures Split(Serialize(f), ',') == Texts(f)
  {
    SplitJoin(Texts(f), ',');
  }

  /** The text `Thin_film` gives a field that was not passed. */
  function DefaultText(i: nat): string
  {
    if i == 0 then "SiO2" else "0.0"
  }

  /**
   * `Thin_film(*args)` with string arguments: binds them by position, fills the missing
   * trailing fields with the defaults, and raises TypeError on more than four.
   */
  function Construct(args: seq<string>): (r: Result<Film, Error>)
    ensures r.Ok? <==> |args| <= 4
    ensures r.Err? ==> r.error == TypeError
    ensures r.Ok? ==> forall i :: 0 <= i < 4 ==>
              Texts(r.value)[i] == if i < |args| then args[i] else DefaultText(i)
  {
    if |args| > 4 then Err(TypeError)
    else
      assert Show(Zero) == "0.0" by {
        assert NatText(0) == "0";
      }
      Ok(Film(if |args| > 0 then args[0] else "SiO2",
              if |args| > 1 then Str(args[1]) else Zero,
              if |args| > 2 then Str(args[2]) else Zero,
              if |args| > 3 then Str(args[3]) else Zero))
  }

  /** `Read(line)`: the comma-separated pieces of the line, passed to the constructor as text. */
  function Read(line: string): (r: Result<Film, Error>)
    ensures r.Ok? <==> |Split(line, ',')| <= 4
    ensures r.Ok? ==> r.value.name == Split(line, ',')[0]
  {
    Construct(Split(line, ','))
  }

  /**
   * Reading the text form of a comma-free film gives a film whose fields hold, as raw
   * text, exactly the texts of the original's fields: no numeric conversion happens.
   */
  lemma ReadSerialize(f: Film)
    requires CommaFree(f)
    ensures Read(Serialize(f)) ==
              Ok(Film(f.name, Str(Show(f.spectralRange)), Str(Show(f.index)), Str(Show(f.numberOfMaxima))))
    ensures Texts(Read(Serialize(f)).value) == Texts(f)
  {
    SerializeSplit(f);
  }

  /** `k` copies of ",0.0": the text the defaults add for `k` missing fields. */
  function Padding(k: nat): string
  {
    if k == 0 then "" else Padding(k - 1) + ",0.0"
  }

  lemma {:induction false} JoinDefaults(pieces: seq<string>, k: nat)
    requires |pieces| >= 1
    ensures Join(pieces + seq(k, _ => "0.0"), ',') == Join(pieces, ',') + Padding(k)
  {
    if k == 0 {
      assert pieces + seq(k, _ => "0.0") == pieces;
    } else {
      var fewer := pieces + seq(k - 1, _ => "0.0");
      JoinDefaults(pieces, k - 1);
      assert pieces + seq(k, _ => "0.0") == fewer + ["0.0"];
      JoinSnoc(fewer, "0.0", ',');
    }
  }

  /**
   * The other round trip: a line of at most four pieces is read and written back as
   * itself, followed by ",0.0" for every field it left to the defaults.
   */
  lemma SerializeRead(line: string)
    requires |Split(line, ',')| <= 4
    ensures Read(line).Ok?
    ensures Serialize(Read(line).value) == line + Padding(4 - |Split(line, ',')|)
  {
    var pieces := Split(line, ',');
    var k := 4 - |pieces|;
    var f := Read(line).value;
    assert Texts(f) == pieces + seq(k, _ => "0.0");
    JoinDefaults(pieces, k);
  }

  /** The answers typed at `Write`'s four prompts, in the order it asks for them. */
  datatype Entry = Entry(name: string, index: string, spectralRange: string, numberOfMaxima: string)

  /** The film after `Write`, and the exception it raised, if any. */
  datatype Written = Written(film: Film, error: Option<Error>)

  /**
   * `film.Write()` fed the answers `e`: it assigns the name, then the float index, then
   * the float spectral range, then the int number of maxima. A conversion that fails
   * raises ValueError and leaves the fields after it as they were, while the fields
   * before it keep their new values.
   */
  function Write(f: Film, e: Entry): (w: Written)
    ensures w.film.name == e.name
    ensures w.error.None? <==>
              ParseFloat(e.index).Some? && ParseFloat(e.spectralRange).Some? && ParseInt(e.numberOfMaxima).Some?
    ensures w.error.Some? ==> w.error == Some(ValueError)
    ensures w.error.None? ==> w.film == Film(e.name, Float(ParseFloat(e.spectralRange).value),
                                Float(ParseFloat(e.index).value), Int(ParseInt(e.numberOfMaxima).value))
    ensures ParseFloat(e.index).None? ==> w.film == f.(name := e.name)
    ensures ParseFloat(e.index).Some? && ParseFloat(e.spectralRange).None? ==>
              w.film == f.(name := e.name, index := Float(ParseFloat(e.index).value))
    ensures ParseFloat(e.index).Some? && ParseFloat(e.spectralRange).Some? && ParseInt(e.numberOfMaxima).None? ==>
              w.film == f.(name := e.name, index := Float(ParseFloat(e.index).value),
                           spectralRange := Float(ParseFloat(e.spectralRange).value))
  {
    var f1 := f.(name := e.name);
    match ParseFloat(e.index)
    case None => Written(f1, Some(ValueError))
    case Some(index) =>
      var f2 := f1.(index := Float(index));
      match ParseFloat(e.spectralRange)
      case None => Written(f2, Some(ValueError))
      case Some(range) =>
        var f3 := f2.(spectralRange := Float(range));
        match ParseInt(e.numberOfMaxima)
        case None => Written(f3, Some(ValueError))
        case Some(n) => Written(f3.(numberOfMaxima := Int(n)), None)
  }

  /** The shape of a record `Load_data` builds: float, float and int numeric fields. */
  predicate Loaded(f: Film)
  {
    ',' !in f.name && f.spectralRange.Float? && f.index.Float? && f.numberOfMaxima.Int?
  }

  /**
   * One line of `Load_data`: split on commas, then, in argument order, index field 1 and
   * convert it with `float`, the same for field 2, then index field 3 and convert it with
   * `int`. A missing field raises IndexError, a bad number ValueError; pieces after the
   * fourth are never looked at.
   */
  function ParseLine(line: string): (r: Result<Film, Error>)
    ensures var p := Split(line, ',');
            && (r.Ok? <==> |p| >= 4 && ParseFloat(p[1]).Some? && ParseFloat(p[2]).Some? && ParseInt(p[3]).Some?)
            && (r.Ok? ==> r.value == Film(p[0], Float(ParseFloat(p[1]).value), Float(ParseFloat(p[2]).value),
                                          Int(ParseInt(p[3]).value)))
            && (|p| >= 4 && r.Err? ==> r.error == ValueError)
            && (|p| == 1 ==> r == Err(IndexError))
    ensures r.Ok? ==> Loaded(r.value)
  {
    ParseFields(Split(line, ','))
  }

  /** `Load_data`'s conversions over the comma-separated fields of one line. */
  function ParseFields(fields: seq<string>): (r: Result<Film, Error>)
    requires |fields| >= 1
    ensures r.Ok? <==> |fields| >= 4 && ParseFloat(fields[1]).Some? && ParseFloat(fields[2]).Some? && ParseInt(fields[3]).Some?
    ensures r.Ok? ==> r.value == Film(fields[0], Float(ParseFloat(fields[1]).value), Float(ParseFloat(fields[2]).value),
                                      Int(ParseInt(fields[3]).value))
    ensures |fields| >= 4 && r.Err? ==> r.error == ValueError
    ensures |fields| == 1 ==> r == Err(IndexError)
  {
    if |fields| < 2 then Err(IndexError)
    else match ParseFloat(fields[1])
    case None => Err(ValueError)
    case Some(range) =>
      if |fields| < 3 then Err(IndexError)
      else match ParseFloat(fields[2])
      case None => Err(ValueError)
      case Some(index) =>
        if |fields| < 4 then Err(IndexError)
        else match ParseInt(fields[3])
        case None => Err(ValueError)
        case Some(n) => Ok(Film(fields[0], Float(range), Float(index), Int(n)))
  }

  /** Appending ",extra" to a line that already has four fields changes nothing that is read. */
  lemma ParseLineIgnoresExtra(line: string, extra: string)
    requires |Split(line, ',')| >= 4
    ensures ParseLine(line + "," + extra) == ParseLine(line)
  {
    SplitAppend(line, extra, ',');
    ParseFieldsIgnoresExtra(Split(line, ','), Split(extra, ','));
  }

  lemma ParseFieldsIgnoresExtra(fields: seq<string>, extra: seq<string>)
    requires |fields| >= 4
    ensures ParseFields(fields + extra) == ParseFields(fields)
  {
    var longer := fields + extra;
    assert longer[0] == fields[0] && longer[1] == fields[1] && longer[2] == fields[2] && longer[3] == fields[3];
  }

  /** A record `Load_data` built, written out with `str`, loads back as the same record. */
  lemma LoadSerialize(f: Film)
    requires Loaded(f)
    ensures ParseLine(Serialize(f)) == Ok(f)
  {
    assert CommaFree(f);
    SerializeSplit(f);
    var fields := Texts(f);
    assert ParseFloat(fields[1]) == Some(f.spectralRange.x);
    assert ParseFloat(fields[2]) == Some(f.index.x);
    assert ParseInt(fields[3]) == Some(f.numberOfMaxima.n);
  }

  /** What `Load_data` appends, and the exception that stopped it, if one did. */
  datatype LoadOutcome = LoadOutcome(films: seq<Film>, failure: Option<Error>)

  /** The outcome of converting each line, in line order. */
  function Parses(lines: seq<string>): seq<Result<Film, Error>>
  {
    seq(|lines|, j requires 0 <= j < |lines| => ParseLine(lines[j]))
  }

  /**
   * Appending in order and stopping at the first failure: the records of the leading
   * successful conversions, and the failure that ended the run, if any.
   */
  function Collect(results: seq<Result<Film, Error>>): (r: LoadOutcome)
    ensures |r.films| <= |results|
    ensures forall j :: 0 <= j < |r.films| ==> results[j] == Ok(r.films[j])
    ensures r.failure.None? <==> |r.films| == |results|
    ensures r.failure.Some? ==> results[|r.films|] == Err(r.failure.value)
  {
    if results == [] then LoadOutcome([], None)
    else match results[0]
    case Err(e) => LoadOutcome([], Some(e))
    case Ok(f) =>
      var rest := Collect(results[1..]);
      LoadOutcome([f] + rest.films, rest.failure)
  }

  /**
   * `Load_data` over its lines: one record per line, in line order, until the first line
   * that raises; the records of the lines before it have already been appended.
   */
  function LoadAll(lines: seq<string>): LoadOutcome
  {
    Collect(Parses(lines))
  }

  /**
   * What `Load_data` appends: exactly one record per line, each the conversion of its
   * line, in line order; all lines when none raises, otherwise the lines before the first
   * one that raises, whose exception is the load's failure.
   */
  lemma LoadAllSpec(lines: seq<string>)
    ensures |LoadAll(lines).films| <= |lines|
    ensures forall j :: 0 <= j < |LoadAll(lines).films| ==> ParseLine(lines[j]) == Ok(LoadAll(lines).films[j])
    ensures LoadAll(lines).failure.None? <==> |LoadAll(lines).films| == |lines|
    ensures LoadAll(lines).failure.Some? ==>
              ParseLine(lines[|LoadAll(lines).films|]) == Err(LoadAll(lines).failure.value)
  {
    var r := LoadAll(lines);
    forall j | 0 <= j < |r.films| ensures ParseLine(lines[j]) == Ok(r.films[j]) {
      assert Parses(lines)[j] == ParseLine(lines[j]);
    }
    if r.failure.Some? {
      assert Parses(lines)[|r.films|] == ParseLine(lines[|r.films|]);
    }
  }

  /** How result `i` stands once the results before it have all been collected. */
  lemma CollectAt(results: seq<Result<Film, Error>>, i: nat)
    requires i < |results| && i <= |Collect(results).films|
    ensures results[i].Ok? <==> i < |Collect(results).films|
    ensures results[i].Ok? ==> Collect(results).films[i] == results[i].value
    ensures results[i].Err? ==> Collect(results).failure == Some(results[i].error)
  {
    var r := Collect(results);
    if i < |r.films| {
      assert results[i] == Ok(r.films[i]);
    } else {
      assert results[i] == Err(r.failure.value);
    }
  }

  /** The text form of each record, one line per record, in order. */
  function Lines(films: seq<Film>): seq<string>
  {
    seq(|films|, i requires 0 <= i < |films| => Serialize(films[i]))
  }

  /** Loading the text forms of records `Load_data` built gives back those records, with no error. */
  lemma LoadLines(films: seq<Film>)
    requires forall i :: 0 <= i < |films| ==> Loaded(films[i])
    ensures LoadAll(Lines(films)) == LoadOutcome(films, None)
  {
    var lines := Lines(films);
    forall i | 0 <= i < |films| ensures ParseLine(lines[i]) == Ok(films[i]) {
      LoadSerialize(films[i]);
    }
    LoadAllSpec(lines);
  }
}
