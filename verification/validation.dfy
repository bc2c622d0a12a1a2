/** The ActiveModel validation vocabulary the models use: an error is an
    attribute name with the kind of failure (Rails' `errors.details`), and a
    record's errors are the set of all of them, gathered from every validator
    at once. */
module Validation {
  import opened Wrappers
  import opened Text

  datatype ErrorKind =
    | CantBeBlank                       // presence: "can't be blank"
    | TooShort(minimum: nat)            // length: "is too short (minimum is N characters)"
    | TooLong(maximum: nat)             // length: "is too long (maximum is N characters)"
    | IsInvalid                         // format: "is invalid"
    | AlreadyTaken                      // uniqueness: "has already been taken"
    | NotIncluded                       // inclusion: "is not included in the list"
    | NotANumber                        // numericality: "is not a number"
    | NotAnInteger                      // numericality: "must be an integer"
    | GreaterThan(bound: int)           // "must be greater than N"
    | GreaterThanOrEqualTo(bound: int)  // "must be greater than or equal to N"
    | LessThanOrEqualTo(bound: int)     // "must be less than or equal to N"
    | MustExist                         // belongs_to: "must exist"
    | Message(text: string)             // a custom message

  datatype FieldError = FieldError(attribute: string, kind: ErrorKind)

  type Errors = set<FieldError>

  /** The kinds of error recorded against one attribute (`errors[:attr]`). */
  function On(errors: Errors, attribute: string): (kinds: set<ErrorKind>)
    ensures forall k :: k in kinds <==> FieldError(attribute, k) in errors
  {
    set e | e in errors && e.attribute == attribute :: e.kind
  }

  /** Every error in `errors` is recorded against `attribute`. */
  predicate Only(errors: Errors, attribute: string) {
    forall e :: e in errors ==> e.attribute == attribute
  }

  /** No error is recorded against `attribute`. */
  predicate Clean(errors: Errors, attribute: string) {
    forall e :: e in errors ==> e.attribute != attribute
  }

  /** `errors[:attr]` is empty exactly when no error names the attribute. */
  lemma OnEmptyIff(errors: Errors, attribute: string)
    ensures On(errors, attribute) == {} <==> Clean(errors, attribute)
  {
    if !Clean(errors, attribute) {
      var e :| e in errors && e.attribute == attribute;
      assert e.kind in On(errors, attribute);
    }
  }

  /** One validator's contribution: nothing when the condition holds. */
  function Check(ok: bool, attribute: string, kind: ErrorKind): (errors: Errors)
    ensures errors == {} <==> ok
    ensures forall e :: e in errors ==> e.attribute == attribute
  {
    if ok then {} else {FieldError(attribute, kind)}
  }

  /** `validates attr, presence: true` */
  function Presence(attribute: string, value: string): (errors: Errors)
    ensures errors == {} <==> !Blank(value)
    ensures forall e :: e in errors ==> e == FieldError(attribute, CantBeBlank)
  {
    Check(!Blank(value), attribute, CantBeBlank)
  }

  /** `validates attr, inclusion: { in: allowed }`; nil is never included. */
  function Inclusion(attribute: string, value: Option<string>, allowed: seq<string>): (errors: Errors)
    ensures errors == {} <==> value.Some? && value.value in allowed
    ensures forall e :: e in errors ==> e == FieldError(attribute, NotIncluded)
  {
    Check(value.Some? && value.value in allowed, attribute, NotIncluded)
  }

  /** The raw value of a numeric attribute before type casting, as the
      numericality validator reads it: nil or blank (a blank string is cast
      to nil), something that is not a number,
      a number whose text is an integer literal (`/\A[+-]?\d+\z/`: 2000 or
      "2000"), or any other number (2000.0, "2000.0", "2e3"). */
  datatype Numeric = Absent | NotNumeric | IntegerLiteral(i: int) | OtherNumber(x: real)
  {
    predicate IsNumber() {
      IntegerLiteral? || OtherNumber?
    }

    /** The number the raw value denotes. */
    function Value(): real
      requires IsNumber()
    {
      if IntegerLiteral? then i as real else x
    }
  }

  /** Whether `x` meets one numericality option (`greater_than: n`, ...). */
  predicate Meets(x: real, option: ErrorKind) {
    match option
    case GreaterThan(n) => x > n as real
    case GreaterThanOrEqualTo(n) => x >= n as real
    case LessThanOrEqualTo(n) => x <= n as real
    case _ => true
  }

  /** Meeting a two-option list is meeting both options. */
  lemma MeetsPair(x: real, a: ErrorKind, b: ErrorKind)
    ensures (forall o :: o in [a, b] ==> Meets(x, o)) <==> Meets(x, a) && Meets(x, b)
  {
    assert a in [a, b] && b in [a, b];
  }

  /** Meeting a one-option list is meeting the option. */
  lemma MeetsOne(x: real, a: ErrorKind)
    ensures (forall o :: o in [a] ==> Meets(x, o)) <==> Meets(x, a)
  {
    assert a in [a];
  }

  /** `validates attr, numericality: { only_integer:, <options> }, allow_nil:`:
      nil is skipped only with allow_nil; a non-number, or (with only_integer)
      a number not written as an integer literal, stops the check with one
      error; otherwise every violated
      option is reported. */
  function Numericality(attribute: string, value: Numeric, allowNil: bool, onlyInteger: bool,
                        options: seq<ErrorKind>): (errors: Errors)
    ensures errors == {} <==>
      (value.Absent? && allowNil) ||
      (value.IsNumber() && (onlyInteger ==> value.IntegerLiteral?) &&
       forall o :: o in options ==> Meets(value.Value(), o))
    ensures onlyInteger && value.OtherNumber? ==> errors == {FieldError(attribute, NotAnInteger)}
    ensures forall e :: e in errors ==> e.attribute == attribute
  {
    match value
    case Absent => Check(allowNil, attribute, NotANumber)
    case NotNumeric => {FieldError(attribute, NotANumber)}
    case _ =>
      if onlyInteger && value.OtherNumber? then {FieldError(attribute, NotAnInteger)}
      else
        var x := value.Value();
        var violated := set o | o in options && !Meets(x, o) :: FieldError(attribute, o);
        assert forall o :: o in options && !Meets(x, o) ==> FieldError(attribute, o) in violated;
        violated
  }
}
