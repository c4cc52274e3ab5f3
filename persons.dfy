/** The `Person` entity whose property setters validate each value as it is
    assigned, and the unvalidated `RecPerson` record it is built from. A setter
    that throws is modelled by a `Fail` outcome; the field it guards is then left
    as it was. */
module Persons {
  import opened Wrappers
  import opened Text
  import Dates

  datatype Gender = M | F

  /** The exceptions the setters and the record initialiser throw; all but
      `EmptyName` and `NullPostCode` carry the offending value. */
  datatype ValidationError =
    | EmptyName                      // null, empty or white-space-only name
    | NameWithDigits(name: string)   // a name containing a digit
    | NullPostCode                   // a null post code reaching the pattern match
    | BadPostCode(postCode: string)  // a post code not of the form 00-000
    | AgeTooBig(age: int)            // an age above 110
    | BadDate(date: Option<string>)  // not an existing day written yyyy-MM-dd

  /** The oldest age a person may have. */
  const MaxAge := 110

  /** The anchored pattern `^\d{2}-\d{3}$`. */
  const PostCodePattern: seq<Token> := [AnyDigit, AnyDigit, Literal('-'), AnyDigit, AnyDigit, AnyDigit]

  predicate IsPostCode(s: string) {
    MatchesExactly(PostCodePattern, s)
  }

  /** A post code is two digits, a hyphen and three digits, and nothing else. */
  lemma PostCodeShape(s: string)
    ensures IsPostCode(s) <==> |s| == 6 && IsDigit(s[0]) && IsDigit(s[1]) && s[2] == '-'
                                && IsDigit(s[3]) && IsDigit(s[4]) && IsDigit(s[5])
  {
    MatchesExactlyIff(PostCodePattern, s);
  }

  /** `ValidateName`: rejects a null or blank name first, then one containing a
      digit; an accepted name is returned exactly as given. */
  function ValidateName(name: Option<string>): (r: Result<string, ValidationError>)
    ensures r.Success? <==> name.Some?
                            && (exists i :: 0 <= i < |name.value| && !IsWhiteSpace(name.value[i]))
                            && (forall i :: 0 <= i < |name.value| ==> !IsDigit(name.value[i]))
    ensures r.Success? ==> r.value == name.value
    ensures r.Failure? && (name.None? || forall i :: 0 <= i < |name.value| ==> IsWhiteSpace(name.value[i]))
            ==> r.error == EmptyName
    ensures r.Failure? && name.Some? && (exists i :: 0 <= i < |name.value| && !IsWhiteSpace(name.value[i]))
            ==> r.error == NameWithDigits(name.value)
  {
    if name.None? || IsBlank(name.value) then Failure(EmptyName)
    else if ContainsDigit(name.value) then Failure(NameWithDigits(name.value))
    else Success(name.value)
  }

  /** `ValidateSurName`: the checks of `ValidateName`, then the accepted value is
      trimmed; what is stored is never empty and has no white space at its ends. */
  function ValidateSurName(name: Option<string>): (r: Result<string, ValidationError>)
    ensures r.Success? <==> ValidateName(name).Success?
    ensures r.Failure? ==> r == ValidateName(name)
    ensures r.Success? ==> r.value == Trim(name.value) && r.value != []
                           && !IsWhiteSpace(r.value[0]) && !IsWhiteSpace(r.value[|r.value| - 1])
  {
    match ValidateName(name)
    case Failure(e) => Failure(e)
    case Success(n) =>
      TrimEmptyIffBlank(n);
      Success(Trim(n))
  }

  /** `ValidateDate`: the value is accepted, and stored unchanged, exactly when
      `TryParseExact(date, "yyyy-MM-dd")` succeeds. */
  function ValidateDate(date: Option<string>): (r: Result<string, ValidationError>)
    ensures r.Success? <==> date.Some? && MatchesExactly(Dates.DateFormat, date.value)
                            && Dates.IsValidDate(Dates.FieldsOf(date.value))
    ensures r.Success? ==> r.value == date.value
    ensures r.Failure? ==> r.error == BadDate(date)
  {
    if Dates.TryParseExact(date).None? then Failure(BadDate(date)) else Success(date.value)
  }

  /** The seven backing fields of a `Person`; `None` is C#'s `null`. */
  datatype PersonState = PersonState(
    firstName: Option<string>,
    surName: Option<string>,
    gend: Option<Gender>,
    country: Option<string>,
    postCode: Option<string>,
    age: int,
    dateBr: Option<string>)

  /** A `Person` fresh from its parameterless constructor. */
  const EmptyState := PersonState(None, None, None, None, None, 0, None)

  /** The `FirstName` setter on a state: accepted values are stored as given. */
  function AssignFirstName(s: PersonState, value: Option<string>): (r: Result<PersonState, ValidationError>)
    ensures r.Success? <==> ValidateName(value).Success?
    ensures r.Success? ==> r.value == s.(firstName := value)
    ensures r.Failure? ==> r.error == ValidateName(value).error
  {
    match ValidateName(value)
    case Failure(e) => Failure(e)
    case Success(n) => Success(s.(firstName := Some(n)))
  }

  /** The `SurName` setter: accepted values are stored trimmed. */
  function AssignSurName(s: PersonState, value: Option<string>): (r: Result<PersonState, ValidationError>)
    ensures r.Success? <==> ValidateName(value).Success?
    ensures r.Success? ==> r.value == s.(surName := Some(Trim(value.value)))
    ensures r.Failure? ==> r.error == ValidateName(value).error
  {
    match ValidateSurName(value)
    case Failure(e) => Failure(e)
    case Success(n) => Success(s.(surName := Some(n)))
  }

  /** The `PostCode` setter: a value equal to the current one (`null` included)
      is accepted without any check; any other value must be a post code. */
  function AssignPostCode(s: PersonState, value: Option<string>): (r: Result<PersonState, ValidationError>)
    ensures r.Success? <==> value == s.postCode || (value.Some? && IsPostCode(value.value))
    ensures r.Success? ==> r.value == s.(postCode := value)
    ensures r.Failure? ==> r.error == if value.None? then NullPostCode else BadPostCode(value.value)
  {
    if s.postCode == value then Success(s)
    else if value.None? then Failure(NullPostCode)
    else if !IsPostCode(value.value) then Failure(BadPostCode(value.value))
    else Success(s.(postCode := value))
  }

  /** The `Age` setter: any value up to 110 is accepted, with no lower bound. */
  function AssignAge(s: PersonState, value: int): (r: Result<PersonState, ValidationError>)
    ensures r.Success? <==> value <= MaxAge
    ensures r.Success? ==> r.value == s.(age := value)
    ensures r.Failure? ==> r.error == AgeTooBig(value)
  {
    if value > MaxAge then Failure(AgeTooBig(value)) else Success(s.(age := value))
  }

  /** The `DateBr` setter: accepted values are stored unchanged. */
  function AssignDateBr(s: PersonState, value: Option<string>): (r: Result<PersonState, ValidationError>)
    ensures r.Success? <==> Dates.TryParseExact(value).Some?
    ensures r.Success? ==> r.value == s.(dateBr := value)
    ensures r.Failure? ==> r.error == BadDate(value)
  {
    match ValidateDate(value)
    case Failure(e) => Failure(e)
    case Success(d) => Success(s.(dateBr := Some(d)))
  }

  /** How a sequence of assignments ended and the state it left behind. */
  datatype Applied = Applied(outcome: Outcome<ValidationError>, state: PersonState)

  /** `SetFields` on a state: the seven setters in order; the first that throws
      ends the sequence, leaving the fields assigned before it in place. The
      seven arguments `a` are given as the fields they are meant to set. */
  function ApplyFields(s: PersonState, a: PersonState): (r: Applied)
    ensures r.state.firstName in {s.firstName, a.firstName}
    ensures r.state.surName == s.surName || (a.surName.Some? && r.state.surName == Some(Trim(a.surName.value)))
    ensures r.state.gend in {s.gend, a.gend} && r.state.country in {s.country, a.country}
    ensures r.state.postCode in {s.postCode, a.postCode} && r.state.age in {s.age, a.age}
    ensures r.state.dateBr == (if r.outcome.Pass? then a.dateBr else s.dateBr)
  {
    match AssignFirstName(s, a.firstName)
    case Failure(e) => Applied(Fail(e), s)
    case Success(s1) =>
      match AssignSurName(s1, a.surName)
      case Failure(e) => Applied(Fail(e), s1)
      case Success(s2) =>
        var s3 := s2.(gend := a.gend, country := a.country);
        match AssignPostCode(s3, a.postCode)
        case Failure(e) => Applied(Fail(e), s3)
        case Success(s4) =>
          match AssignAge(s4, a.age)
          case Failure(e) => Applied(Fail(e), s4)
          case Success(s5) =>
            match AssignDateBr(s5, a.dateBr)
            case Failure(e) => Applied(Fail(e), s5)
            case Success(s6) => Applied(Pass, s6)
  }

  /** Every field of `a` passes its setter's check, given the post code the
      object held before. */
  predicate FieldsValid(currentPostCode: Option<string>, a: PersonState) {
    && ValidateName(a.firstName).Success?
    && ValidateName(a.surName).Success?
    && (a.postCode == currentPostCode || (a.postCode.Some? && IsPostCode(a.postCode.value)))
    && a.age <= MaxAge
    && Dates.TryParseExact(a.dateBr).Some?
  }

  /** `SetFields` completes exactly when every field is valid, and then holds the
      arguments as given except the surname, which is trimmed. A failure leaves
      the birth date (the last field) untouched. */
  lemma SetFieldsSucceedsIff(s: PersonState, a: PersonState)
    ensures ApplyFields(s, a).outcome.Pass? <==> FieldsValid(s.postCode, a)
    ensures ApplyFields(s, a).outcome.Pass? ==>
              ApplyFields(s, a).state == a.(surName := Some(Trim(a.surName.value)))
    ensures ApplyFields(s, a).outcome.Fail? ==> ApplyFields(s, a).state.dateBr == s.dateBr
  {
    var r1 := AssignFirstName(s, a.firstName);
    if r1.Success? {
      var r2 := AssignSurName(r1.value, a.surName);
      if r2.Success? {
        var s3 := r2.value.(gend := a.gend, country := a.country);
        var r4 := AssignPostCode(s3, a.postCode);
        if r4.Success? {
          var r5 := AssignAge(r4.value, a.age);
          if r5.Success? {
            var r6 := AssignDateBr(r5.value, a.dateBr);
            assert ApplyFields(s, a) == Applied(r6.ToOutcome(), r6.GetOr(r5.value));
          }
        }
      }
    }
  }

  /** A failed `SetFields` reports the error of the first setter that throws,
      and leaves exactly the fields assigned before it: each checked field in
      turn, as the first to fail. */
  lemma SetFieldsFirstFailure(s: PersonState, a: PersonState)
    ensures ValidateName(a.firstName).Failure? ==>
              ApplyFields(s, a) == Applied(Fail(ValidateName(a.firstName).error), s)
    ensures ValidateName(a.firstName).Success? && ValidateName(a.surName).Failure? ==>
              ApplyFields(s, a) == Applied(Fail(ValidateName(a.surName).error), s.(firstName := a.firstName))
    ensures ValidateName(a.firstName).Success? && ValidateName(a.surName).Success?
            && a.postCode != s.postCode && !(a.postCode.Some? && IsPostCode(a.postCode.value)) ==>
              ApplyFields(s, a)
              == Applied(Fail(if a.postCode.None? then NullPostCode else BadPostCode(a.postCode.value)),
                         s.(firstName := a.firstName, surName := Some(Trim(a.surName.value)),
                            gend := a.gend, country := a.country))
    ensures ValidateName(a.firstName).Success? && ValidateName(a.surName).Success?
            && (a.postCode == s.postCode || (a.postCode.Some? && IsPostCode(a.postCode.value)))
            && a.age > MaxAge ==>
              ApplyFields(s, a)
              == Applied(Fail(AgeTooBig(a.age)),
                         s.(firstName := a.firstName, surName := Some(Trim(a.surName.value)),
                            gend := a.gend, country := a.country, postCode := a.postCode))
    ensures ValidateName(a.firstName).Success? && ValidateName(a.surName).Success?
            && (a.postCode == s.postCode || (a.postCode.Some? && IsPostCode(a.postCode.value)))
            && a.age <= MaxAge && Dates.TryParseExact(a.dateBr).None? ==>
              ApplyFields(s, a)
              == Applied(Fail(BadDate(a.dateBr)), a.(surName := Some(Trim(a.surName.value)), dateBr := s.dateBr))
  {
  }

  /** A validated person as a class whose setters check each value. */
  class Person {
    var firstName: Option<string>
    var surName: Option<string>
    var gend: Option<Gender>
    var country: Option<string>
    var postCode: Option<string>
    var age: int
    var dateBr: Option<string>

    function State(): PersonState
      reads this
    {
      PersonState(firstName, surName, gend, country, postCode, age, dateBr)
    }

    /** `new Person()`: every reference field null, the age zero. */
    constructor ()
      ensures State() == EmptyState
    {
      firstName, surName, gend, country, postCode, age, dateBr := None, None, None, None, None, 0, None;
    }

    method SetFirstName(value: Option<string>) returns (r: Outcome<ValidationError>)
      modifies this`firstName
      ensures r == AssignFirstName(old(State()), value).ToOutcome()
      ensures State() == AssignFirstName(old(State()), value).GetOr(old(State()))
    {
      var v := ValidateName(value);
      if v.Failure? {
        return Fail(v.error);
      }
      firstName := Some(v.value);
      r := Pass;
    }

    method SetSurName(value: Option<string>) returns (r: Outcome<ValidationError>)
      modifies this`surName
      ensures r == AssignSurName(old(State()), value).ToOutcome()
      ensures State() == AssignSurName(old(State()), value).GetOr(old(State()))
    {
      var v := ValidateSurName(value);
      if v.Failure? {
        return Fail(v.error);
      }
      surName := Some(v.value);
      r := Pass;
    }

    method SetGend(value: Option<Gender>)
      modifies this`gend
      ensures State() == old(State()).(gend := value)
    {
      gend := value;
    }

    method SetCountry(value: Option<string>)
      modifies this`country
      ensures State() == old(State()).(country := value)
    {
      country := value;
    }

    method SetPostCode(value: Option<string>) returns (r: Outcome<ValidationError>)
      modifies this`postCode
      ensures r == AssignPostCode(old(State()), value).ToOutcome()
      ensures State() == AssignPostCode(old(State()), value).GetOr(old(State()))
    {
      if postCode == value {
        return Pass;
      }
      if value.None? {
        return Fail(NullPostCode);
      }
      if !IsPostCode(value.value) {
        return Fail(BadPostCode(value.value));
      }
      postCode := value;
      r := Pass;
    }

    method SetAge(value: int) returns (r: Outcome<ValidationError>)
      modifies this`age
      ensures r == AssignAge(old(State()), value).ToOutcome()
      ensures State() == AssignAge(old(State()), value).GetOr(old(State()))
    {
      if value > MaxAge {
        return Fail(AgeTooBig(value));
      }
      age := value;
      r := Pass;
    }

    method SetDateBr(value: Option<string>) returns (r: Outcome<ValidationError>)
      modifies this`dateBr
      ensures r == AssignDateBr(old(State()), value).ToOutcome()
      ensures State() == AssignDateBr(old(State()), value).GetOr(old(State()))
    {
      var v := ValidateDate(value);
      if v.Failure? {
        return Fail(v.error);
      }
      dateBr := Some(v.value);
      r := Pass;
    }

    /** Assigns the seven fields in order through their setters; the first
        failure is returned and the remaining fields are not assigned. */
    method SetFields(firstName: Option<string>, surName: Option<string>, gend: Option<Gender>,
                     country: Option<string>, postCode: Option<string>, age: int, dateBr: Option<string>)
      returns (r: Outcome<ValidationError>)
      modifies this
      ensures Applied(r, State())
              == ApplyFields(old(State()), PersonState(firstName, surName, gend, country, postCode, age, dateBr))
    {
      ghost var a := PersonState(firstName, surName, gend, country, postCode, age, dateBr);
      ghost var s0 := State();
      r := SetFirstName(firstName);
      if r.Fail? { return; }
      ghost var s1 := State();
      assert AssignFirstName(s0, firstName) == Success(s1);
      r := SetSurName(surName);
      if r.Fail? { return; }
      ghost var s2 := State();
      assert AssignSurName(s1, surName) == Success(s2);
      SetGend(gend);
      SetCountry(country);
      ghost var s3 := State();
      assert s3 == s2.(gend := gend, country := country);
      r := SetPostCode(postCode);
      if r.Fail? { return; }
      ghost var s4 := State();
      assert AssignPostCode(s3, postCode) == Success(s4);
      r := SetAge(age);
      if r.Fail? { return; }
      ghost var s5 := State();
      assert AssignAge(s4, age) == Success(s5);
      r := SetDateBr(dateBr);
      assert ApplyFields(s0, a) == Applied(AssignDateBr(s5, dateBr).ToOutcome(), AssignDateBr(s5, dateBr).GetOr(s5));
    }
  }

  /** The raw input record; its fields are stored as given except that the
      first name is checked for digits. */
  datatype RecPerson = RecPerson(
    firstName: string,
    surName: string,
    gend: string,
    country: string,
    postCode: string,
    age: int,
    dateBr: string)

  /** `new RecPerson(...)`: throws when the first name contains a digit, and
      otherwise keeps all seven values unchecked (an empty name included). */
  function NewRecPerson(firstName: string, surName: string, gend: string, country: string,
                        postCode: string, age: int, dateBr: string): (r: Result<RecPerson, ValidationError>)
    ensures r.Success? <==> forall i :: 0 <= i < |firstName| ==> !IsDigit(firstName[i])
    ensures r.Success? ==> r.value == RecPerson(firstName, surName, gend, country, postCode, age, dateBr)
    ensures r.Failure? ==> r.error == NameWithDigits(firstName)
  {
    if ContainsDigit(firstName) then Failure(NameWithDigits(firstName))
    else Success(RecPerson(firstName, surName, gend, country, postCode, age, dateBr))
  }

  /** A person's values once every field holds a value; the sequence operators
      work on these. */
  datatype PersonData = PersonData(
    firstName: string,
    surName: string,
    gend: Gender,
    country: string,
    postCode: string,
    age: int,
    dateBr: string)

  predicate IsComplete(s: PersonState) {
    s.firstName.Some? && s.surName.Some? && s.gend.Some? && s.country.Some? && s.postCode.Some? && s.dateBr.Some?
  }

  function ToData(s: PersonState): PersonData
    requires IsComplete(s)
  {
    PersonData(s.firstName.value, s.surName.value, s.gend.value, s.country.value, s.postCode.value, s.age, s.dateBr.value)
  }

  /** Post codes from the sample data: the well-formed one is accepted, the
      two others are rejected; a `null` post code is accepted by a fresh
      person, whose post code is already `null`. */
  lemma PostCodeExamples()
    ensures AssignPostCode(EmptyState, Some("00-432")).Success?
    ensures AssignPostCode(EmptyState, Some("22-432y")) == Failure(BadPostCode("22-432y"))
    ensures AssignPostCode(EmptyState, Some("WN-432")) == Failure(BadPostCode("WN-432"))
    ensures AssignPostCode(EmptyState, None) == Success(EmptyState)
  {
    PostCodeShape("00-432");
    PostCodeShape("22-432y");
    PostCodeShape("WN-432");
  }

  /** The age bound is inclusive. */
  lemma AgeExamples()
    ensures AssignAge(EmptyState, 110).Success?
    ensures AssignAge(EmptyState, 120) == Failure(AgeTooBig(120))
  {
  }

  /** Birth dates from the sample data: a real day is accepted and stored as
      given. */
  lemma DateExample()
    ensures ValidateDate(Some("1965-12-11")) == Success("1965-12-11")
  {
    DateFields("1965-12-11", "1965", "12", "11");
  }

  /** A month 48 is rejected. */
  lemma BadMonthExample()
    ensures ValidateDate(Some("1994-48-01")) == Failure(BadDate(Some("1994-48-01")))
  {
    DateFields("1994-48-01", "1994", "48", "01");
  }

  /** A year with letters is rejected. */
  lemma BadYearExample()
    ensures ValidateDate(Some("20FR-07-09")) == Failure(BadDate(Some("20FR-07-09")))
  {
    MatchesExactlyIff(Dates.DateFormat, "20FR-07-09");
    assert !TokenMatches(Dates.DateFormat[2], "20FR-07-09"[2]);
  }

  /** A string of the date format and its three fields. */
  lemma DateFields(s: string, y: string, m: string, d: string)
    requires |y| == 4 && |m| == 2 && |d| == 2 && AllDigits(y) && AllDigits(m) && AllDigits(d)
    requires s == y + "-" + m + "-" + d
    ensures MatchesExactly(Dates.DateFormat, s)
    ensures Dates.FieldsOf(s) == Dates.Date(DigitsValue(y), DigitsValue(m), DigitsValue(d))
  {
    Dates.JoinedFields(y, m, d);
  }

  /** A name of spaces only is rejected as empty. */
  lemma BlankNameExample()
    ensures ValidateName(Some("   ")) == Failure(EmptyName)
  {
    assert IsBlank("   ");
  }

  /** A name with a digit in it is rejected, the error carrying the name. */
  lemma DigitNameExample()
    ensures ValidateName(Some("Pid7ck")) == Failure(NameWithDigits("Pid7ck"))
  {
    assert !IsWhiteSpace("Pid7ck"[0]);
    assert IsDigit("Pid7ck"[3]);
  }
}
