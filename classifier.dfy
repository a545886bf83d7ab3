/**
  `AmericanDateValidator::Validation`: given the parsed value, the raw input
  and the validator's options, decides which errors apply. The two checks are
  `presence` (error `blank`) and `format` (error `invalid`).
 */
module Classifier {
  import opened Values
  import DateFormat

  /** Metadata attached to an error (a Ruby hash). */
  type Metadata = map<string, string>

  /**
    The value of one validator option: absent (nil), a boolean, or a hash of
    error metadata. Any other Ruby object behaves as `Flag(true)` does.
   */
  datatype Setting = Unset | Flag(on: bool) | Meta(fields: Metadata) {
    /** Ruby truthiness: everything except nil and false, including an empty hash. */
    predicate Truthy() {
      match this
      case Unset => false
      case Flag(b) => b
      case Meta(_) => true
    }
  }

  /** The validator's options, `options[:presence]` and `options[:format]`. */
  datatype ValidatorOptions = ValidatorOptions(presence: Setting, format: Setting)

  datatype ErrorKind = Blank | Invalid

  /** One error the validation yields: its kind and the option value that requested it. */
  datatype Error = Error(kind: ErrorKind, options: Setting)

  /** `Array#compact`: the present entries, in order. */
  function Compact<T(!new)>(xs: seq<Option<T>>): (r: seq<T>)
    ensures |r| <= |xs|
    ensures forall x :: x in r <==> Some(x) in xs
  {
    if xs == [] then []
    else
      var rest := Compact(xs[1..]);
      assert forall x :: Some(x) in xs <==> xs[0] == Some(x) || Some(x) in xs[1..];
      match xs[0]
      case None => rest
      case Some(x) => [x] + rest
  }

  /** Compacting keeps the relative order: it distributes over concatenation. */
  lemma {:induction false} CompactAppend<T(!new)>(xs: seq<Option<T>>, ys: seq<Option<T>>)
    ensures Compact(xs + ys) == Compact(xs) + Compact(ys)
  {
    if xs == [] {
      assert xs + ys == ys;
    } else {
      assert (xs + ys)[1..] == xs[1..] + ys;
      CompactAppend(xs[1..], ys);
    }
  }

  /** `[first, second].compact`: the first entry, if present, comes before the second. */
  lemma CompactPair<T(!new)>(first: Option<T>, second: Option<T>)
    ensures Compact([first, second]) ==
      (if first.Some? then [first.value] else []) + (if second.Some? then [second.value] else [])
  {
    CompactAppend([first], [second]);
    assert [first] + [second] == [first, second];
  }

  /**
    `raw !~ date_format`. A string is searched for the date pattern. For a
    `Date` or `Time` Ruby's `Object#=~` answers nil, so `!~` is true; nil is
    never searched, because the check is guarded by `raw.present?`.
   */
  predicate DoesNotMatch(raw: RawInput) {
    match raw
    case Text(s) => !DateFormat.Matches(s)
    case _ => true
  }

  /** One validation pass over an attribute: `Validation.new(value:, raw:, options:)`. */
  datatype Validation = Validation(value: Option<DateTime>, raw: RawInput, options: ValidatorOptions) {

    predicate ValidatePresence() {
      options.presence.Truthy()
    }

    predicate ValidateFormat() {
      options.format.Truthy()
    }

    /** `blank?`: both the parsed value and the raw input are blank. */
    predicate BothBlank() {
      IsBlankValue(value) && IsBlank(raw)
    }

    /** `format_mismatch?`: raw is present, nothing was parsed, and raw does not look like a date. */
    predicate FormatMismatch() {
      !IsBlank(raw) && IsBlankValue(value) && DoesNotMatch(raw)
    }

    function PresenceError(): Option<Error> {
      if ValidatePresence() && BothBlank() then Some(Error(Blank, options.presence)) else None
    }

    function FormatError(): Option<Error> {
      if ValidateFormat() && FormatMismatch() then Some(Error(Invalid, options.format)) else None
    }

    /**
      `errors`: `[format_error, presence_error].compact`. At most one error
      applies, none applies once a value was parsed, and each kind fires
      exactly under its own condition, carrying its own option value.
     */
    function Errors(): (r: seq<Error>)
      ensures |r| <= 1
      ensures value.Some? ==> r == []
      ensures Error(Blank, options.presence) in r <==>
                options.presence.Truthy() && value.None? && IsBlank(raw)
      ensures Error(Invalid, options.format) in r <==>
                options.format.Truthy() && value.None? && !IsBlank(raw) && DoesNotMatch(raw)
      ensures forall e :: e in r ==>
                e == Error(Blank, options.presence) || e == Error(Invalid, options.format)
    {
      var format := FormatError();
      var presence := PresenceError();
      CompactPair(format, presence);
      Compact([format, presence])
    }
  }

  /**
    The two checks never fire together: `blank` needs the raw input blank,
    `invalid` needs it present.
   */
  lemma BlankAndInvalidExclusive(v: Validation)
    ensures !(v.PresenceError().Some? && v.FormatError().Some?)
  {
  }

  /** A text raw input that contains the date shape anywhere is never reported `invalid`. */
  lemma ShapedTextNeverInvalid(value: Option<DateTime>, s: string, options: ValidatorOptions)
    requires DateFormat.ContainsMatch(s)
    ensures forall e :: e in Validation(value, Text(s), options).Errors() ==> e.kind != Invalid
  {
    DateFormat.MatchesIff(s);
  }
}
