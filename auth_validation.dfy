/** The authentication body schemas: e-mail look-up, donor onboarding, admin login and facility rejection. */
module AuthValidation {

  import opened Wrappers
  import opened Joi
  import Text

  /** `lookUpMailSchema`: a required, trimmed e-mail address. */
  const LookUpMailSchema := [Rule("email", true, false, true, None, true)]

  /** `onboardDonorsSchema`. */
  const OnboardDonorsSchema := [
    Rule("email", true, false, true, None, true),
    Required("age", true, false),
    Required("weight", true, false),
    Required("phoneNumber", false, true),
    Rule("password", true, false, true, Some(20), false),
    Required("pregnancyStatus", true, false)]

  /** `adminLoginSchema`: e-mail address (not trimmed) and password, both required. */
  const AdminLoginSchema := [Rule("email", true, false, false, None, true), Required("password", false, false)]

  /** `rejectFacilitySchema`: both keys required, neither converted. */
  const RejectFacilitySchema := [Required("facilityId", false, false), Required("rejectionReason", false, false)]

  /** The validated look-up address: present, trimmed, non-empty and well formed; no other key. */
  function LookUpMail(body: Body, isEmail: string -> bool): (r: Validated<string>)
    ensures r.Valid? <==>
      body.Keys <= {"email"} && HasString(body, "email")
      && Text.Trim(body["email"].s) != "" && isEmail(Text.Trim(body["email"].s))
    ensures r.Valid? ==> r.value == Text.Trim(body["email"].s) && r.value != ""
  {
    var s := LookUpMailSchema;
    assert OnlyDeclared(body, s) <==> body.Keys <= {"email"} by {
      forall k ensures Declared(s, k) <==> k == "email" {
        assert s[0].key == "email";
        if Declared(s, k) { var i :| 0 <= i < |s| && s[i].key == k; assert i == 0; }
      }
    }
    assert (forall i :: 0 <= i < |s| ==> FieldValid(body, s[i], isEmail)) <==> FieldValid(body, s[0], isEmail);
    match Validate(body, s, isEmail)
    case Invalid(d) => Invalid(d)
    case Valid(m) => Valid(m["email"])
  }

  /** The converted fields of a donor onboarding body. */
  datatype DonorOnboarding = DonorOnboarding(
    email: string, age: string, weight: string, phoneNumber: string, password: string, pregnancyStatus: string)

  /** A key `onboardDonorsSchema` declares. */
  predicate OnboardDonorsKey(k: string) {
    k == "email" || k == "age" || k == "weight" || k == "phoneNumber" || k == "password" || k == "pregnancyStatus"
  }

  /**
   * What `onboardDonorsSchema` accepts: all six keys present as strings and
   * nothing else; the trimmed e-mail address non-empty and well formed; age,
   * weight and pregnancy status non-empty (they are lower-cased, not trimmed);
   * the trimmed phone number non-empty; the trimmed password non-empty and at
   * most 20 UTF-16 code units.
   */
  predicate OnboardDonorAccepts(body: Body, isEmail: string -> bool) {
    (forall k :: k in body.Keys ==> OnboardDonorsKey(k)) && OnboardDonorFields(body, isEmail)
  }

  /** The per-key part of `OnboardDonorAccepts`. */
  predicate OnboardDonorFields(body: Body, isEmail: string -> bool) {
    && HasString(body, "email") && Text.Trim(body["email"].s) != "" && isEmail(Text.Trim(body["email"].s))
    && HasString(body, "age") && body["age"].s != ""
    && HasString(body, "weight") && body["weight"].s != ""
    && HasString(body, "phoneNumber") && Text.Trim(body["phoneNumber"].s) != ""
    && HasString(body, "password") && Text.Trim(body["password"].s) != "" && Text.Utf16Length(Text.Trim(body["password"].s)) <= 20
    && HasString(body, "pregnancyStatus") && body["pregnancyStatus"].s != ""
  }

  /** A key is declared by `onboardDonorsSchema` exactly when `OnboardDonorsKey` names it. */
  lemma OnboardDonorsKeys(k: string)
    ensures Declared(OnboardDonorsSchema, k) <==> OnboardDonorsKey(k)
  {
    var s := OnboardDonorsSchema;
    assert s[0].key == "email" && s[1].key == "age" && s[2].key == "weight";
    assert s[3].key == "phoneNumber" && s[4].key == "password" && s[5].key == "pregnancyStatus";
    if Declared(s, k) {
      var i :| 0 <= i < |s| && s[i].key == k;
      assert i == 0 || i == 1 || i == 2 || i == 3 || i == 4 || i == 5;
    }
  }

  /** The schema interpreter accepts exactly the bodies `OnboardDonorAccepts` describes. */
  lemma OnboardDonorsSchemaMeaning(body: Body, isEmail: string -> bool)
    ensures Validate(body, OnboardDonorsSchema, isEmail).Valid? <==> OnboardDonorAccepts(body, isEmail)
  {
    forall k ensures Declared(OnboardDonorsSchema, k) <==> OnboardDonorsKey(k) { OnboardDonorsKeys(k); }
    OnboardDonorsFieldsMeaning(body, isEmail);
  }

  /** The six rules of `onboardDonorsSchema` accept exactly what `OnboardDonorFields` describes. */
  lemma OnboardDonorsFieldsMeaning(body: Body, isEmail: string -> bool)
    ensures (forall i :: 0 <= i < |OnboardDonorsSchema| ==> FieldValid(body, OnboardDonorsSchema[i], isEmail))
            <==> OnboardDonorFields(body, isEmail)
  {
    var s := OnboardDonorsSchema;
    OnboardDonorsRulesMeaning(body, isEmail);
    if OnboardDonorFields(body, isEmail) {
      forall i | 0 <= i < |s| ensures FieldValid(body, s[i], isEmail) {
        if i == 0 {} else if i == 1 {} else if i == 2 {} else if i == 3 {} else if i == 4 {} else {}
      }
    }
  }

  /** Rule by rule, what each of the six accepts. */
  lemma OnboardDonorsRulesMeaning(body: Body, isEmail: string -> bool)
    ensures FieldValid(body, OnboardDonorsSchema[0], isEmail) && FieldValid(body, OnboardDonorsSchema[1], isEmail)
      && FieldValid(body, OnboardDonorsSchema[2], isEmail) && FieldValid(body, OnboardDonorsSchema[3], isEmail)
      && FieldValid(body, OnboardDonorsSchema[4], isEmail) && FieldValid(body, OnboardDonorsSchema[5], isEmail)
      <==> OnboardDonorFields(body, isEmail)
  {
    var s := OnboardDonorsSchema;
    RequiredField(body, s[0], isEmail);
    RequiredField(body, s[1], isEmail);
    RequiredField(body, s[2], isEmail);
    RequiredField(body, s[3], isEmail);
    RequiredField(body, s[4], isEmail);
    RequiredField(body, s[5], isEmail);
  }

  /** The six keys of `onboardDonorsSchema` are distinct. */
  lemma OnboardDonorsDistinct()
    ensures DistinctKeys(OnboardDonorsSchema)
  {
  }

  /** The map a successful validation returns holds the six converted values. */
  lemma OnboardDonorsValues(body: Body, isEmail: string -> bool, m: map<string, string>)
    requires Validate(body, OnboardDonorsSchema, isEmail) == Valid(m)
    ensures OnboardDonorFields(body, isEmail)
    ensures "email" in m && m["email"] == Text.Trim(body["email"].s)
    ensures "age" in m && m["age"] == Text.Lower(body["age"].s)
    ensures "weight" in m && m["weight"] == Text.Lower(body["weight"].s)
    ensures "phoneNumber" in m && m["phoneNumber"] == Text.Trim(body["phoneNumber"].s)
    ensures "password" in m && m["password"] == Text.Trim(body["password"].s)
    ensures "pregnancyStatus" in m && m["pregnancyStatus"] == Text.Lower(body["pregnancyStatus"].s)
  {
    var s := OnboardDonorsSchema;
    OnboardDonorsRulesMeaning(body, isEmail);
    assert FieldValid(body, s[0], isEmail) && FieldValid(body, s[1], isEmail) && FieldValid(body, s[2], isEmail);
    assert FieldValid(body, s[3], isEmail) && FieldValid(body, s[4], isEmail) && FieldValid(body, s[5], isEmail);
    RecordedString(m, body, s[0], isEmail);
    RecordedString(m, body, s[1], isEmail);
    RecordedString(m, body, s[2], isEmail);
    RecordedString(m, body, s[3], isEmail);
    RecordedString(m, body, s[4], isEmail);
    RecordedString(m, body, s[5], isEmail);
  }

  /** The validated onboarding body with its converted values. */
  function OnboardDonor(body: Body, isEmail: string -> bool): (r: Validated<DonorOnboarding>)
    ensures r.Valid? <==> OnboardDonorAccepts(body, isEmail)
    ensures r.Valid? ==>
      && r.value.email == Text.Trim(body["email"].s)
      && r.value.age == Text.Lower(body["age"].s)
      && r.value.weight == Text.Lower(body["weight"].s)
      && r.value.phoneNumber == Text.Trim(body["phoneNumber"].s)
      && r.value.password == Text.Trim(body["password"].s)
      && r.value.pregnancyStatus == Text.Lower(body["pregnancyStatus"].s)
  {
    OnboardDonorsDistinct();
    OnboardDonorsSchemaMeaning(body, isEmail);
    match Validate(body, OnboardDonorsSchema, isEmail)
    case Invalid(d) => Invalid(d)
    case Valid(m) =>
      OnboardDonorsValues(body, isEmail, m);
      Valid(DonorOnboarding(m["email"], m["age"], m["weight"], m["phoneNumber"], m["password"], m["pregnancyStatus"]))
  }

  /**
   * `max(20)` counts UTF-16 code units: a password of more than ten
   * characters all above U+FFFF is refused, even one of 11 to 20 characters.
   */
  lemma AstralPasswordRefused(body: Body, isEmail: string -> bool, w: string)
    requires HasString(body, "password") && body["password"].s == w
    requires 10 < |w| && forall k :: 0 <= k < |w| ==> w[k] as int > 0xFFFF
    ensures OnboardDonor(body, isEmail).Invalid?
  {
    AstralTrimmed(w);
  }

  /** Such a password has no space to trim and is more than 20 code units long. */
  lemma AstralTrimmed(w: string)
    requires 10 < |w| && forall k :: 0 <= k < |w| ==> w[k] as int > 0xFFFF
    ensures Text.Trim(w) == w && Text.Utf16Length(w) > 20
  {
    Text.AstralIsNotSpace(w[0]);
    Text.AstralIsNotSpace(w[|w| - 1]);
    Text.TrimOfTrimmed(w);
    Text.Utf16LengthAstral(w);
  }

  /** The validated admin credentials: e-mail address as given and well formed, non-empty password; no other key. */
  function AdminLogin(body: Body, isEmail: string -> bool): (r: Validated<(string, string)>)
    ensures r.Valid? <==>
      body.Keys <= {"email", "password"}
      && HasString(body, "email") && body["email"].s != "" && isEmail(body["email"].s)
      && HasString(body, "password") && body["password"].s != ""
    ensures r.Valid? ==> r.value == (body["email"].s, body["password"].s)
  {
    var s := AdminLoginSchema;
    assert OnlyDeclared(body, s) <==> body.Keys <= {"email", "password"} by {
      forall k ensures Declared(s, k) <==> k == "email" || k == "password" {
        assert s[0].key == "email" && s[1].key == "password";
        if Declared(s, k) { var i :| 0 <= i < |s| && s[i].key == k; assert i == 0 || i == 1; }
      }
    }
    assert (forall i :: 0 <= i < |s| ==> FieldValid(body, s[i], isEmail)) <==>
      FieldValid(body, s[0], isEmail) && FieldValid(body, s[1], isEmail);
    match Validate(body, s, isEmail)
    case Invalid(d) => Invalid(d)
    case Valid(m) => Valid((m["email"], m["password"]))
  }

  /**
   * The validated facility rejection body: `facilityId` and `rejectionReason`
   * both present as non-empty strings and no other key; the result is the reason.
   */
  function RejectFacility(body: Body): (r: Validated<string>)
    ensures r.Valid? <==>
      body.Keys <= {"facilityId", "rejectionReason"}
      && HasString(body, "facilityId") && body["facilityId"].s != ""
      && HasString(body, "rejectionReason") && body["rejectionReason"].s != ""
    ensures r.Valid? ==> r.value == body["rejectionReason"].s && r.value != ""
  {
    var s := RejectFacilitySchema;
    var noEmail := (x: string) => false;
    assert OnlyDeclared(body, s) <==> body.Keys <= {"facilityId", "rejectionReason"} by {
      forall k ensures Declared(s, k) <==> k == "facilityId" || k == "rejectionReason" {
        assert s[0].key == "facilityId" && s[1].key == "rejectionReason";
        if Declared(s, k) { var i :| 0 <= i < |s| && s[i].key == k; assert i == 0 || i == 1; }
      }
    }
    assert (forall i :: 0 <= i < |s| ==> FieldValid(body, s[i], noEmail)) <==>
      FieldValid(body, s[0], noEmail) && FieldValid(body, s[1], noEmail);
    match Validate(body, s, noEmail)
    case Invalid(d) => Invalid(d)
    case Valid(m) => Valid(m["rejectionReason"])
  }
}
