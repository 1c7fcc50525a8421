/**
  Transmitter power conversion between milliwatts and dBm, string side.

  The input text is lower-cased; a trailing "mw" selects the milliwatt branch,
  otherwise a trailing "dbm" selects the dBm branch, otherwise the input is
  rejected with a fixed message. In a unit branch every match of the unit
  token is removed, the rest is trimmed and handed to a number parser; a parse
  failure aborts (Rust's `unwrap`). The parser and the two logarithmic
  conversions are parameters of the model.
 */
module PowerConversion {
  import opened RustStr

  datatype Option<T> = None | Some(value: T)

  const MilliwattToken: string := "mw"
  const DbmToken: string := "dbm"
  const InvalidUnitMessage: string :=
    "Invalid input. Please enter a valid value followed by its unit (mW or dBm)."

  datatype PowerUnit = Milliwatt | Dbm

  function Token(u: PowerUnit): (r: string) {
    match u
    case Milliwatt => MilliwattToken
    case Dbm => DbmToken
  }

  /** What the unit handling makes of the input: a unit and the text to parse, or a rejection. */
  datatype Reading = Numeric(unit: PowerUnit, text: string) | InvalidUnit

  /** The outcome of the whole conversion; `ParsePanic` is the `unwrap` of a failed parse. */
  datatype Outcome<F> = Ok(value: F) | Err(message: string) | ParsePanic(text: string)

  /** The numeric text of a unit branch: every match of the token removed, then trimmed. */
  function StripUnit(lowered: string, u: PowerUnit): (r: string) {
    Trim(Replace(lowered, Token(u), ""))
  }

  /** Lower-case the input, then test "mw" first and "dbm" second. */
  function ClassifyInput(input: string): (r: Reading)
    ensures r.Numeric? && r.unit == Milliwatt <==> EndsWith(ToLower(input), MilliwattToken)
    ensures r.Numeric? && r.unit == Dbm <==>
            !EndsWith(ToLower(input), MilliwattToken) && EndsWith(ToLower(input), DbmToken)
    ensures r.InvalidUnit? <==>
            !EndsWith(ToLower(input), MilliwattToken) && !EndsWith(ToLower(input), DbmToken)
    ensures r.Numeric? ==> r.text == StripUnit(ToLower(input), r.unit)
    ensures r.Numeric? ==> |r.text| <= |input| - |Token(r.unit)|
  {
    var lowered := ToLower(input);
    if EndsWith(lowered, MilliwattToken) then
      StrippedShorter(lowered, Milliwatt);
      Numeric(Milliwatt, StripUnit(lowered, Milliwatt))
    else if EndsWith(lowered, DbmToken) then
      StrippedShorter(lowered, Dbm);
      Numeric(Dbm, StripUnit(lowered, Dbm))
    else
      InvalidUnit
  }

  /**
    `transmitter_power_conversion`, with the float parser and the two
    conversions `10 * log10(v)` and `10 ^ (v / 10)` as parameters.
   */
  function TransmitterPowerConversion<F>(input: string, parse: string -> Option<F>,
                                         mwToDbm: F -> F, dbmToMw: F -> F): (r: Outcome<F>)
    ensures r.Err? <==> ClassifyInput(input).InvalidUnit?
    ensures r.Err? ==> r.message == InvalidUnitMessage
    ensures r.ParsePanic? <==>
            ClassifyInput(input).Numeric? && parse(ClassifyInput(input).text).None?
    ensures r.ParsePanic? ==> r.text == ClassifyInput(input).text
    ensures r.Ok? ==> ClassifyInput(input).Numeric? && parse(ClassifyInput(input).text).Some?
    ensures r.Ok? && ClassifyInput(input).unit == Milliwatt ==>
            r.value == mwToDbm(parse(ClassifyInput(input).text).value)
    ensures r.Ok? && ClassifyInput(input).unit == Dbm ==>
            r.value == dbmToMw(parse(ClassifyInput(input).text).value)
  {
    match ClassifyInput(input)
    case InvalidUnit => Err(InvalidUnitMessage)
    case Numeric(u, text) =>
      match parse(text)
      case None => ParsePanic(text)
      case Some(v) => Ok(if u == Milliwatt then mwToDbm(v) else dbmToMw(v))
  }

  // ---------------------------------------------------------------------------
  // Facts about the unit tokens
  // ---------------------------------------------------------------------------

  lemma TokensBorderFree()
    ensures BorderFree(MilliwattToken) && BorderFree(DbmToken)
  {
    assert MilliwattToken[..1] == "m" && MilliwattToken[1..] == "w";
    assert !IsBorder(MilliwattToken, 1);
    assert DbmToken[..1] == "d" && DbmToken[2..] == "m";
    assert DbmToken[..2] == "db" && DbmToken[1..] == "bm";
    assert !IsBorder(DbmToken, 1) && !IsBorder(DbmToken, 2);
  }

  /** No text ends with both tokens, so testing "mw" before "dbm" decides nothing by itself. */
  lemma TokensDisjoint(s: string)
    ensures !(EndsWith(s, MilliwattToken) && EndsWith(s, DbmToken))
  {
    assert EndsWith(s, MilliwattToken) ==> s[|s| - 1] == 'w';
    assert EndsWith(s, DbmToken) ==> s[|s| - 1] == 'm';
  }

  /** In a unit branch the numeric text is shorter than the input by at least the token. */
  lemma StrippedShorter(lowered: string, u: PowerUnit)
    requires EndsWith(lowered, Token(u))
    ensures |StripUnit(lowered, u)| <= |lowered| - |Token(u)|
  {
    EndsWithOccurs(lowered, Token(u));
    OccursCounted(lowered, Token(u));
    RemoveLength(lowered, Token(u));
    TrimSpec(Replace(lowered, Token(u), ""));
  }

  // ---------------------------------------------------------------------------
  // Properties of the classification
  // ---------------------------------------------------------------------------

  /** Only the lower-cased input matters. */
  lemma ClassifyLowered(input: string)
    ensures ClassifyInput(ToLower(input)) == ClassifyInput(input)
  {
    ToLowerIdempotent(input);
  }

  /** Inputs that differ only in the case of ASCII letters are classified alike. */
  lemma ClassifyCaseInsensitive(s: string, t: string)
    requires EqualIgnoringAsciiCase(s, t)
    ensures ClassifyInput(s) == ClassifyInput(t)
  {
    ToLowerEqualIff(s, t);
  }

  /** The same holds for the whole conversion, whatever the parser and the arithmetic. */
  lemma ConversionCaseInsensitive<F>(s: string, t: string, parse: string -> Option<F>,
                                     mwToDbm: F -> F, dbmToMw: F -> F)
    requires EqualIgnoringAsciiCase(s, t)
    ensures TransmitterPowerConversion(s, parse, mwToDbm, dbmToMw)
         == TransmitterPowerConversion(t, parse, mwToDbm, dbmToMw)
  {
    ClassifyCaseInsensitive(s, t);
  }

  /** An unknown unit is rejected with the fixed message, and no parser is consulted. */
  lemma InvalidUnitIgnoresParser<F>(input: string, parse: string -> Option<F>,
                                    mwToDbm: F -> F, dbmToMw: F -> F)
    requires !EndsWith(ToLower(input), MilliwattToken) && !EndsWith(ToLower(input), DbmToken)
    ensures TransmitterPowerConversion(input, parse, mwToDbm, dbmToMw) == Err(InvalidUnitMessage)
  {
  }

  /** The length of the stripped text before trimming: one token length less per match. */
  lemma StrippedLength(input: string)
    requires ClassifyInput(input).Numeric?
    ensures var lowered := ToLower(input);
            var token := Token(ClassifyInput(input).unit);
            |Replace(lowered, token, "")| == |input| - |token| * CountMatches(lowered, token)
  {
    RemoveLength(ToLower(input), Token(ClassifyInput(input).unit));
  }

  /**
    A number text followed by a milliwatt unit in any case: when the lower-cased
    number text holds no "mw", the numeric text is exactly that text, trimmed.
   */
  lemma MilliwattSuffix(s: string, unit: string)
    requires ToLower(unit) == MilliwattToken
    requires !Occurs(ToLower(s), MilliwattToken)
    ensures ClassifyInput(s + unit) == Numeric(Milliwatt, Trim(ToLower(s)))
  {
    ToLowerConcat(s, unit);
    TokensBorderFree();
    RemoveSuffix(ToLower(s), MilliwattToken);
  }

  /** The dBm counterpart of `MilliwattSuffix`. */
  lemma DbmSuffix(s: string, unit: string)
    requires ToLower(unit) == DbmToken
    requires !Occurs(ToLower(s), DbmToken)
    ensures ClassifyInput(s + unit) == Numeric(Dbm, Trim(ToLower(s)))
  {
    ToLowerConcat(s, unit);
    TokensBorderFree();
    TokensDisjoint(ToLower(s + unit));
    RemoveSuffix(ToLower(s), DbmToken);
  }

  /**
    Two number parts each followed by a milliwatt unit: both units are
    removed and the number parts are joined.
   */
  lemma MilliwattTwice(a: string, u1: string, b: string, u2: string)
    requires ToLower(u1) == MilliwattToken && ToLower(u2) == MilliwattToken
    requires !Occurs(ToLower(a), MilliwattToken) && !Occurs(ToLower(b), MilliwattToken)
    ensures ClassifyInput(a + u1 + (b + u2)) == Numeric(Milliwatt, Trim(ToLower(a) + ToLower(b)))
  {
    ToLowerConcat(a, u1);
    ToLowerConcat(b, u2);
    ToLowerConcat(a + u1, b + u2);
    var lb := ToLower(b);
    assert (lb + MilliwattToken)[|lb|..] == MilliwattToken;
    TokensBorderFree();
    RemoveTwice(ToLower(a), lb, MilliwattToken);
  }

  // ---------------------------------------------------------------------------
  // The inputs of the repository's tests and a few telling ones
  // ---------------------------------------------------------------------------

  // The concrete inputs are written as a number text followed by a unit, so
  // that the general lemmas above do the work instead of literal evaluation.

  /** The inputs of the repository's milliwatt tests reach the milliwatt branch with the number text. */
  lemma ExampleMilliwattTests()
    ensures ClassifyInput("10" + "mW") == Numeric(Milliwatt, "10")
    ensures ClassifyInput("1" + "mW") == Numeric(Milliwatt, "1")
  {
    assert ToLower("mW") == MilliwattToken;
    assert ToLower("10") == "10" && ToLower("1") == "1";
    FirstCharAbsent("10", MilliwattToken);
    FirstCharAbsent("1", MilliwattToken);
    TrimNoEdges("10");
    TrimNoEdges("1");
    MilliwattSuffix("10", "mW");
    MilliwattSuffix("1", "mW");
  }

  /** The repository's "10dBm" test input reads as dBm with "10". */
  lemma ExampleDbmTest10()
    ensures ClassifyInput("10" + "dBm") == Numeric(Dbm, "10")
  {
    assert ToLower("dBm") == DbmToken;
    assert ToLower("10") == "10";
    FirstCharAbsent("10", DbmToken);
    TrimNoEdges("10");
    DbmSuffix("10", "dBm");
  }

  /** The unit may be written in any case: "10MW", "10mw" and "10Mw" all read as 10 mW. */
  lemma ExampleMixedCase()
    ensures ClassifyInput("10" + "MW") == Numeric(Milliwatt, "10")
    ensures ClassifyInput("10" + "mw") == Numeric(Milliwatt, "10")
    ensures ClassifyInput("10" + "Mw") == Numeric(Milliwatt, "10")
  {
    assert ToLower("MW") == ToLower("mw") == ToLower("Mw") == MilliwattToken;
    assert ToLower("10") == "10";
    FirstCharAbsent("10", MilliwattToken);
    TrimNoEdges("10");
    MilliwattSuffix("10", "MW");
    MilliwattSuffix("10", "mw");
    MilliwattSuffix("10", "Mw");
  }

  /** Whitespace between the number and the unit is trimmed away: "10 mW" reads as 10 mW. */
  lemma ExampleSpaced()
    ensures ClassifyInput("10 " + "mW") == Numeric(Milliwatt, "10")
  {
    assert ToLower("mW") == MilliwattToken;
    assert ToLower("10 ") == "10 ";
    FirstCharAbsent("10 ", MilliwattToken);
    assert "10 "[0..2] == "10" && "10 "[2..] == " ";
    TrimUnique("10 ", "10", 0);
    MilliwattSuffix("10 ", "mW");
  }

  /** Every match of the token is removed, not only the trailing one: "1mw2mw" reads as "1" + "2", that is 12 mW. */
  lemma ExampleEveryMatch()
    ensures ClassifyInput("1" + "mw" + ("2" + "mw")) == Numeric(Milliwatt, "1" + "2")
  {
    assert ToLower("mw") == MilliwattToken;
    assert ToLower("1") == "1" && ToLower("2") == "2";
    FirstCharAbsent("1", MilliwattToken);
    FirstCharAbsent("2", MilliwattToken);
    TrimNoEdges("1" + "2");
    MilliwattTwice("1", "mw", "2", "mw");
  }

  /**
    The repository's "0dBm" test input reads as dBm with "0"; the parser sees
    "0" and its value goes to the dBm-to-milliwatt conversion.
   */
  lemma ExampleDbmConversion<F>(parse: string -> Option<F>, mwToDbm: F -> F, dbmToMw: F -> F)
    ensures ClassifyInput("0" + "dBm") == Numeric(Dbm, "0")
    ensures TransmitterPowerConversion("0" + "dBm", parse, mwToDbm, dbmToMw)
         == match parse("0")
            case Some(v) => Ok(dbmToMw(v))
            case None => ParsePanic("0")
  {
    assert ToLower("dBm") == DbmToken;
    assert ToLower("0") == "0";
    FirstCharAbsent("0", DbmToken);
    TrimNoEdges("0");
    DbmSuffix("0", "dBm");
  }

  /** A unit other than mW or dBm is rejected: "10xyz" is an invalid unit. */
  lemma ExampleUnknownUnit()
    ensures ClassifyInput("10" + "xyz") == InvalidUnit
  {
    var input := "10" + "xyz";
    assert forall k :: 0 <= k < |input| ==> !IsAsciiUpper(input[k]);
    ToLowerFixed(input);
    assert input[3..] == "yz" && input[2..] == "xyz";
  }
}
