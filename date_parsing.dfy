/**
  The attribute layer of `AmericanDateParsing`: the generated `attribute=`
  setter, which keeps the raw input beside the parsed value, and the
  validator's `validate_each`, which forwards the classifier's errors to the
  record.
 */
module AmericanDateParsing {
  import opened Values
  import opened Classifier
  import DateFormat

  /**
    `Chronic.parse`: free text to a time, or nil. It is foreign code, so the
    model takes it as a parameter and assumes nothing about it.
   */
  type TextParser = string -> Option<Temporal>

  /** `date_string.to_s` for an input that does not respond to `strftime`. */
  function TextOf(input: RawInput): string
    requires !input.Structured?
  {
    if input.Text? then input.text else ""
  }

  /**
    The value the setter writes: a `Date` or `Time` is converted with
    `to_datetime`, anything else is handed to the text parser as a string and
    a result, if any, is converted with `to_datetime`. The calendar date is
    kept either way.
   */
  function ParseAssigned(chronic: TextParser, input: RawInput): (r: Option<DateTime>)
    ensures input.Structured? ==> r.Some? && r.value.date == input.moment.date
    ensures !input.Structured? ==> (r.Some? <==> chronic(TextOf(input)).Some?)
    ensures !input.Structured? && r.Some? ==> r.value.date == chronic(TextOf(input)).value.date
  {
    match input
    case Structured(t) => Some(ToDateTime(t))
    case _ =>
      match chronic(TextOf(input))
      case None => None
      case Some(t) => Some(ToDateTime(t))
  }

  /** An error as `record.errors.add(attribute, error, opts)` records it. */
  datatype AddedError = AddedError(attribute: string, kind: ErrorKind, options: Metadata)

  /** `opts.respond_to?(:keys) ? opts : {}`: a hash is kept, any other option value becomes `{}`. */
  function ForwardedOptions(s: Setting): Metadata {
    if s.Meta? then s.fields else map[]
  }

  /** The errors `validate_each` adds for `attribute`, one for each classifier error, in order. */
  function Forwarded(attribute: string, es: seq<Error>): (r: seq<AddedError>)
    ensures |r| == |es|
    ensures forall k :: 0 <= k < |es| ==> r[k].attribute == attribute && r[k].kind == es[k].kind
  {
    seq(|es|, k requires 0 <= k < |es| => AddedError(attribute, es[k].kind, ForwardedOptions(es[k].options)))
  }

  /** A record with one date attribute parsed the American way. */
  class Record {
    const attribute: string
    /** `_raw_<attribute>`: the value last assigned, verbatim. */
    var raw: RawInput
    /** `@<attribute>`: the parsed value. */
    var parsed: Option<DateTime>
    /** `record.errors`, as far as this attribute's validator adds to it. */
    var errors: seq<AddedError>

    constructor (attribute: string)
      ensures this.attribute == attribute
      ensures raw == Nil && parsed == None && errors == []
    {
      this.attribute := attribute;
      raw := Nil;
      parsed := None;
      errors := [];
    }

    /** `write_attribute(attribute, value)`. */
    method WriteAttribute(value: Option<DateTime>)
      modifies this`parsed
      ensures parsed == value
    {
      parsed := value;
    }

    /**
      `attribute=`: stores the input verbatim as the raw value whatever the
      parse gives, and the parse result as the attribute. The errors are left
      alone.
     */
    method Assign(chronic: TextParser, input: RawInput)
      modifies this`raw, this`parsed
      ensures raw == input
      ensures parsed == ParseAssigned(chronic, input)
    {
      var p := ParseAssigned(chronic, input);
      raw := input;
      WriteAttribute(p);
    }
  }

  /**
    `validate_each`: classifies the record's parsed and raw values and adds
    each resulting error to the record, in order, with its metadata forwarded.
    A record holding a parsed value gains no error, and no pass adds more
    than one.
   */
  method ValidateEach(record: Record, options: ValidatorOptions)
    modifies record`errors
    ensures record.errors ==
      old(record.errors) + Forwarded(record.attribute, Validation(record.parsed, record.raw, options).Errors())
    ensures |record.errors| <= |old(record.errors)| + 1
    ensures record.parsed.Some? ==> record.errors == old(record.errors)
  {
    var es := Validation(record.parsed, record.raw, options).Errors();
    var i := 0;
    while i < |es|
      invariant 0 <= i <= |es|
      invariant record.errors == old(record.errors) + Forwarded(record.attribute, es[..i])
    {
      var opts := ForwardedOptions(es[i].options);
      record.errors := record.errors + [AddedError(record.attribute, es[i].kind, opts)];
      assert Forwarded(record.attribute, es[..i + 1]) ==
        Forwarded(record.attribute, es[..i]) + [AddedError(record.attribute, es[i].kind, opts)];
      i := i + 1;
    }
    assert es[..i] == es;
  }

  /** The options of the test model: `validate: { format: true, presence: true }`. */
  const TestOptions := ValidatorOptions(presence := Flag(true), format := Flag(true))

  /**
    The test helper `errors(string)`: a fresh record, one assignment, one
    validation pass; the errors added for the `date` attribute.
   */
  method ErrorsAfterAssigning(chronic: TextParser, input: RawInput) returns (added: seq<AddedError>)
    ensures added ==
      Forwarded("date", Validation(ParseAssigned(chronic, input), input, TestOptions).Errors())
  {
    var record := new Record("date");
    record.Assign(chronic, input);
    ValidateEach(record, TestOptions);
    added := record.errors;
  }

  /**
    A structured input bypasses the text parser: whatever parser is in use,
    the stored value is the input's own `to_datetime`, and such a record
    never fails validation.
   */
  lemma StructuredBypassesParser(c1: TextParser, c2: TextParser, t: Temporal, options: ValidatorOptions)
    ensures ParseAssigned(c1, Structured(t)) == ParseAssigned(c2, Structured(t)) == Some(ToDateTime(t))
    ensures Validation(ParseAssigned(c1, Structured(t)), Structured(t), options).Errors() == []
  {
  }

  /** Assigning nil stores nil, provided the text parser finds nothing in the empty string. */
  lemma NilAssignment(chronic: TextParser)
    requires chronic("") == None
    ensures ParseAssigned(chronic, Nil) == None
  {
  }

  /**
    Present text in which the parser finds no date and the search finds no
    date shape is reported `invalid`, and only that, when the format check is on.
   */
  lemma UnshapedTextIsInvalid(chronic: TextParser, s: string, options: ValidatorOptions)
    requires chronic(s) == None && !IsBlankText(s) && !DateFormat.ContainsMatch(s)
    requires options.format.Truthy()
    ensures Validation(ParseAssigned(chronic, Text(s)), Text(s), options).Errors() == [Error(Invalid, options.format)]
  {
    DateFormat.MatchesIff(s);
  }

  /**
    The format check looks at the shape only: text that has the date shape
    but in which the parser finds no date (an impossible day such as
    `02/30/2021`, say) passes validation with no error at all and leaves the
    attribute nil, whichever checks are on.
   */
  lemma ShapedUnparsedTextPasses(chronic: TextParser, s: string, options: ValidatorOptions)
    requires chronic(s) == None && DateFormat.ContainsMatch(s)
    ensures ParseAssigned(chronic, Text(s)) == None
    ensures Validation(ParseAssigned(chronic, Text(s)), Text(s), options).Errors() == []
  {
    DateFormat.MatchIsPresent(s);
    DateFormat.MatchesIff(s);
    var v := Validation(None, Text(s), options);
    assert v.PresenceError() == None && v.FormatError() == None;
    CompactPair<Error>(None, None);
  }

  /** Test "accepts a valid american date" and "accepts hyphen delimiters": never `invalid`, whatever the parser does. */
  lemma AcceptsAmericanDates(chronic: TextParser)
    ensures forall e :: e in Validation(ParseAssigned(chronic, Text("12/25/2012")), Text("12/25/2012"), TestOptions).Errors() ==> e.kind != Invalid
    ensures forall e :: e in Validation(ParseAssigned(chronic, Text("12-25-2012")), Text("12-25-2012"), TestOptions).Errors() ==> e.kind != Invalid
  {
    DateFormat.MatchingExamples();
    ShapedTextNeverInvalid(ParseAssigned(chronic, Text("12/25/2012")), "12/25/2012", TestOptions);
    ShapedTextNeverInvalid(ParseAssigned(chronic, Text("12-25-2012")), "12-25-2012", TestOptions);
  }

  /** Test "rejects missing dates": the empty string is `blank`, not `invalid`. */
  lemma RejectsMissingDates(chronic: TextParser)
    requires chronic("") == None
    ensures Validation(ParseAssigned(chronic, Text("")), Text(""), TestOptions).Errors() == [Error(Blank, Flag(true))]
  {
  }

  /**
    Tests "rejects non-delimited dates", "... extraneous delimiters",
    "... missing delimiters" and "rejects nonsense dates", given that the
    parser finds no date in those strings.
   */
  lemma RejectsMalformedDates(chronic: TextParser)
    requires chronic("12252012") == None && chronic("12/25//2012") == None
    requires chronic("12/252012") == None && chronic("cats") == None
    ensures Validation(ParseAssigned(chronic, Text("12252012")), Text("12252012"), TestOptions).Errors() == [Error(Invalid, Flag(true))]
    ensures Validation(ParseAssigned(chronic, Text("12/25//2012")), Text("12/25//2012"), TestOptions).Errors() == [Error(Invalid, Flag(true))]
    ensures Validation(ParseAssigned(chronic, Text("12/252012")), Text("12/252012"), TestOptions).Errors() == [Error(Invalid, Flag(true))]
    ensures Validation(ParseAssigned(chronic, Text("cats")), Text("cats"), TestOptions).Errors() == [Error(Invalid, Flag(true))]
  {
    DateFormat.RejectedExamples();
    DateFormat.DoubledDelimiterRejected();
    DateFormat.MissingDelimiterRejected();
    assert !IsSpace("12252012"[0]);
    UnshapedTextIsInvalid(chronic, "12252012", TestOptions);
    assert !IsSpace("12/25//2012"[0]);
    UnshapedTextIsInvalid(chronic, "12/25//2012", TestOptions);
    assert !IsSpace("12/252012"[0]);
    UnshapedTextIsInvalid(chronic, "12/252012", TestOptions);
    assert !IsSpace("cats"[0]);
    UnshapedTextIsInvalid(chronic, "cats", TestOptions);
  }
}
