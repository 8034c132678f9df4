/** The lead form's submit-time validation: the seven form controls are read,
    the five text controls are trimmed while the household-size select and
    the consent box are used as read, and six checks run in a fixed order.
    The first check that fails decides the single message shown; when all
    pass, the trimmed data goes on to submission. */
module Validation {
  import opened JsString
  import opened Email
  import opened Formatters

  /** The form controls as read on submit. A control missing from the page
      reads as `undefined`, which every check treats like the empty string
      (or, for the check box, like an unticked box), so it is modelled as one. */
  datatype Snapshot = Snapshot(
    firstName: string,
    lastName: string,
    email: string,
    phone: string,
    zipCode: string,
    householdSize: string,
    consent: bool)

  /** The data of a submission that passed every check, as the page holds it. */
  datatype Lead = Lead(
    firstName: string,
    lastName: string,
    email: string,
    phone: string,
    zipCode: string,
    householdSize: string)

  datatype Verdict = Reject(message: string) | Accept(lead: Lead)

  const NameMessage := "Please enter your full name."
  const EmailMessage := "Please enter a valid email address."
  const PhoneMessage := "Please enter a valid phone number."
  const ZipMessage := "Please enter a valid 5-digit ZIP code."
  const HouseholdMessage := "Please select your household size."
  const ConsentMessage := "Please check the consent box to continue."

  /** A phone number needs at least this many digits. */
  const MinPhoneDigits := 10

  /** The number of checks, and the message of each, in the order they run. */
  const CheckCount := 6

  function Message(k: nat): string
    requires k < CheckCount
  {
    match k
    case 0 => NameMessage
    case 1 => EmailMessage
    case 2 => PhoneMessage
    case 3 => ZipMessage
    case 4 => HouseholdMessage
    case _ => ConsentMessage
  }

  /** The submit handler's checks, as written in the page. */
  function Validate(s: Snapshot): (v: Verdict)
  {
    var firstName, lastName := Trim(s.firstName), Trim(s.lastName);
    var email, phone, zipCode := Trim(s.email), Trim(s.phone), Trim(s.zipCode);
    if firstName == [] || lastName == [] then Reject(NameMessage)
    else if email == [] || !IsValidEmail(email) then Reject(EmailMessage)
    else if phone == [] || |Digits(phone)| < MinPhoneDigits then Reject(PhoneMessage)
    else if zipCode == [] || !IsZip(zipCode) then Reject(ZipMessage)
    else if s.householdSize == [] then Reject(HouseholdMessage)
    else if !s.consent then Reject(ConsentMessage)
    else Accept(Lead(firstName, lastName, email, phone, zipCode, s.householdSize))
  }

  /** Check `k` on its own, stated on the raw controls: a name is more than
      white space, the e-mail has the accepted shape once trimmed, the phone
      holds ten digits somewhere, the trimmed ZIP is five digits, a household
      size is selected (it is not trimmed), and consent is given. */
  predicate Passes(s: Snapshot, k: nat)
    requires k < CheckCount
  {
    match k
    case 0 => !AllSpace(s.firstName) && !AllSpace(s.lastName)
    case 1 => EmailShape(Trim(s.email))
    case 2 => |Digits(s.phone)| >= MinPhoneDigits
    case 3 => IsZip(Trim(s.zipCode))
    case 4 => s.householdSize != []
    case _ => s.consent
  }

  /** What `Validate` tests at step `k` is exactly `Passes(s, k)`. */
  lemma {:induction false} StepMeansPasses(s: Snapshot)
    ensures (Trim(s.firstName) == [] || Trim(s.lastName) == []) <==> !Passes(s, 0)
    ensures (Trim(s.email) == [] || !IsValidEmail(Trim(s.email))) <==> !Passes(s, 1)
    ensures (Trim(s.phone) == [] || |Digits(Trim(s.phone))| < MinPhoneDigits) <==> !Passes(s, 2)
    ensures (Trim(s.zipCode) == [] || !IsZip(Trim(s.zipCode))) <==> !Passes(s, 3)
  {
    NameStep(s.firstName, s.lastName);
    EmailStep(s.email);
    PhoneStep(s.phone);
  }

  lemma {:induction false} NameStep(first: string, last: string)
    ensures (Trim(first) == [] || Trim(last) == []) <==> !(!AllSpace(first) && !AllSpace(last))
  {
    TrimEmpty(first);
    TrimEmpty(last);
  }

  lemma {:induction false} EmailStep(email: string)
    ensures (Trim(email) == [] || !IsValidEmail(Trim(email))) <==> !EmailShape(Trim(email))
  {
    var e := Trim(email);
    EmailShapeIff(e);
    if e == [] {
      assert !HasInnerDot([]);
    }
  }

  lemma {:induction false} PhoneStep(phone: string)
    ensures (Trim(phone) == [] || |Digits(Trim(phone))| < MinPhoneDigits) <==> |Digits(phone)| < MinPhoneDigits
  {
    TrimKeepsDigits(phone);
  }

  /** All six checks pass. */
  lemma {:induction false} AllPassExpanded(s: Snapshot)
    ensures (forall k :: 0 <= k < CheckCount ==> Passes(s, k)) <==>
            Passes(s, 0) && Passes(s, 1) && Passes(s, 2) && Passes(s, 3) && Passes(s, 4) && Passes(s, 5)
  {
    if Passes(s, 0) && Passes(s, 1) && Passes(s, 2) && Passes(s, 3) && Passes(s, 4) && Passes(s, 5) {
      forall k | 0 <= k < CheckCount ensures Passes(s, k) {
        assert k == 0 || k == 1 || k == 2 || k == 3 || k == 4 || k == 5;
      }
    }
  }

  lemma {:induction false} MessagesDistinct()
    ensures forall j, k :: 0 <= j < k < CheckCount ==> Message(j) != Message(k)
  {
    assert NameMessage[7] == 'e' && EmailMessage[7] == 'e' && PhoneMessage[7] == 'e';
    assert HouseholdMessage[7] == 's' && ConsentMessage[7] == 'c';
    assert NameMessage[13] == 'y' && EmailMessage[13] == 'a';
    assert EmailMessage[21] == 'e' && PhoneMessage[21] == 'p' && ZipMessage[21] == '5';
    assert |NameMessage| == 28 && |ZipMessage| == 38;
  }

  /** The message shown is that of the first failing check, and no other:
      `Validate` rejects with check `k`'s message exactly when check `k` fails
      and every earlier one passes. */
  lemma {:induction false} RejectsAtFirstFailure(s: Snapshot, k: nat)
    requires k < CheckCount
    ensures Validate(s) == Reject(Message(k)) <==>
            !Passes(s, k) && forall j :: 0 <= j < k ==> Passes(s, j)
  {
    if Validate(s) == Reject(Message(k)) {
      RejectionIsFirstFailure(s, k);
    }
    if !Passes(s, k) && forall j :: 0 <= j < k ==> Passes(s, j) {
      FirstFailureRejects(s, k);
    }
  }

  lemma {:induction false} RejectionIsFirstFailure(s: Snapshot, k: nat)
    requires k < CheckCount && Validate(s) == Reject(Message(k))
    ensures !Passes(s, k) && forall j :: 0 <= j < k ==> Passes(s, j)
  {
    MessagesDistinct();
    var v := Validate(s);
    if k == 0 {
      assert v == Reject(NameMessage);
      NameStep(s.firstName, s.lastName);
    } else if k == 1 {
      assert v == Reject(EmailMessage);
      NameStep(s.firstName, s.lastName);
      EmailStep(s.email);
    } else if k == 2 {
      assert v == Reject(PhoneMessage);
      StepMeansPasses(s);
    } else if k == 3 {
      assert v == Reject(ZipMessage);
      StepMeansPasses(s);
    } else if k == 4 {
      assert v == Reject(HouseholdMessage);
      StepMeansPasses(s);
    } else {
      assert v == Reject(ConsentMessage);
      StepMeansPasses(s);
    }
    forall j | 0 <= j < k ensures Passes(s, j) {
      assert j == 0 || j == 1 || j == 2 || j == 3 || j == 4;
    }
  }

  lemma {:induction false} FirstFailureRejects(s: Snapshot, k: nat)
    requires k < CheckCount && !Passes(s, k) && forall j :: 0 <= j < k ==> Passes(s, j)
    ensures Validate(s) == Reject(Message(k))
  {
    if k == 0 {
      NameStep(s.firstName, s.lastName);
    } else if k == 1 {
      assert Passes(s, 0);
      NameStep(s.firstName, s.lastName);
      EmailStep(s.email);
    } else {
      assert Passes(s, 0) && Passes(s, 1);
      NameStep(s.firstName, s.lastName);
      EmailStep(s.email);
      PhoneStep(s.phone);
      if k == 2 {
      } else if k == 3 {
        assert Passes(s, 2);
      } else if k == 4 {
        assert Passes(s, 2) && Passes(s, 3);
      } else {
        assert Passes(s, 2) && Passes(s, 3) && Passes(s, 4);
      }
    }
  }

  /** A snapshot is accepted exactly when all six checks pass, and then the
      lead holds the trimmed controls and the untrimmed household size. */
  lemma {:induction false} AcceptsIffAllPass(s: Snapshot)
    ensures Validate(s).Accept? <==> forall k :: 0 <= k < CheckCount ==> Passes(s, k)
    ensures Validate(s).Accept? ==>
              Validate(s).lead == Lead(Trim(s.firstName), Trim(s.lastName), Trim(s.email),
                                       Trim(s.phone), Trim(s.zipCode), s.householdSize)
  {
    AllPassExpanded(s);
    if Validate(s).Accept? {
      StepMeansPasses(s);
    }
    if Passes(s, 0) && Passes(s, 1) && Passes(s, 2) && Passes(s, 3) && Passes(s, 4) && Passes(s, 5) {
      NameStep(s.firstName, s.lastName);
      EmailStep(s.email);
      PhoneStep(s.phone);
      var e := Trim(s.email);
      assert e != [] && IsValidEmail(e);
    }
  }

  /** Everything an accepted lead is known to satisfy. */
  predicate LeadOk(l: Lead) {
    && l.firstName != [] && l.lastName != []
    && EmailShape(l.email)
    && |Digits(l.phone)| >= MinPhoneDigits
    && IsZip(l.zipCode)
    && l.householdSize != []
  }

  lemma {:induction false} AcceptedLeadOk(s: Snapshot)
    ensures Validate(s).Accept? ==> LeadOk(Validate(s).lead) && s.consent
  {
    if Validate(s).Accept? {
      EmailShapeIff(Trim(s.email));
    }
  }

  /** A household size of a single blank passes, since it is not trimmed. */
  lemma {:induction false} HouseholdNotTrimmed(s: Snapshot)
    requires forall k :: 0 <= k < 4 ==> Passes(s, k)
    requires s.householdSize == " " && s.consent
    ensures Validate(s).Accept? && Validate(s).lead.householdSize == " "
  {
    AcceptsIffAllPass(s);
  }

  /** A form whose controls carry no white space at their ends and pass
      every check is accepted with its controls exactly as typed. */
  lemma {:induction false} AcceptsClean(s: Snapshot)
    requires Trim(s.firstName) == s.firstName != [] && Trim(s.lastName) == s.lastName != []
    requires Trim(s.email) == s.email != [] && IsValidEmail(s.email)
    requires Trim(s.phone) == s.phone != [] && |Digits(s.phone)| >= MinPhoneDigits
    requires Trim(s.zipCode) == s.zipCode != [] && IsZip(s.zipCode)
    requires s.householdSize != [] && s.consent
    ensures Validate(s) == Accept(Lead(s.firstName, s.lastName, s.email, s.phone, s.zipCode, s.householdSize))
  {
  }

  /** The example fields below need no trimming and pass their checks. */
  lemma {:induction false} ExampleFieldsClean(first: string, last: string, email: string, zip: string)
    requires first == "john" && last == "DOE" && email == "john.doe@example.com" && zip == "90210"
    ensures Trim(first) == first != [] && Trim(last) == last != [] && Trim(email) == email != []
    ensures Trim(zip) == zip != [] && IsValidEmail(email) && IsZip(zip)
  {
    ExampleEmailValid(email);
    ExampleClean(first);
    ExampleClean(last);
    ExampleClean(zip);
    assert AllDigits(zip);
  }

  lemma {:induction false} ExampleClean(x: string)
    requires x == "john" || x == "DOE" || x == "90210"
    ensures Trim(x) == x != []
  {
    assert !IsSpace(x[0]) && !IsSpace(x[|x| - 1]);
    TrimUnchanged(x);
  }

  /** A complete, well-formed form is accepted as it stands: john DOE,
      john.doe@example.com, any ten-digit phone number, ZIP 90210, household
      2, consent given. Note that the name is not capitalised here: only the
      blur handler does that. */
  lemma {:induction false} ExampleAccepted(first: string, last: string, email: string, phone: string, zip: string)
    requires first == "john" && last == "DOE" && email == "john.doe@example.com" && zip == "90210"
    requires AllDigits(phone) && |phone| == MinPhoneDigits
    ensures Validate(Snapshot(first, last, email, phone, zip, "2", true)) ==
            Accept(Lead(first, last, email, phone, zip, "2"))
  {
    ExampleFieldsClean(first, last, email, zip);
    TrimUnchanged(phone);
    AcceptsClean(Snapshot(first, last, email, phone, zip, "2", true));
  }

  /** `isValidEmail` accepts the example address: `john.doe` before the `@`,
      `example` and `com` around the last dot. */
  lemma {:induction false} ExampleEmailValid(e: string)
    requires e == "john.doe@example.com"
    ensures Trim(e) == e && IsValidEmail(e)
  {
    assert e[8] == '@' && e[16] == '.';
    assert Plain(e[..8]) && Plain(e[9..16]) && Plain(e[17..]);
    TrimUnchanged(e);
  }
}
