/** The schema of a facility's request for a donor. */
module FacilityValidation {

  import opened Wrappers
  import opened Joi
  import Text

  /** `requestDonorSchema`: four required trimmed strings and an optional trimmed, lower-cased one. */
  const RequestDonorSchema := [
    Required("appointmentDate", false, true),
    Required("appointmentTime", false, true),
    Rule("additionalInformation", false, true, true, None, false),
    Required("bloodCollectionType", false, true),
    Required("bloodGroupRequired", false, true)]

  /** No schema here checks e-mail addresses. */
  const NoEmail: string -> bool := (x: string) => false

  /** The converted fields of a request-donor body. */
  datatype DonorRequestBody = DonorRequestBody(
    appointmentDate: string, appointmentTime: string, additionalInformation: Option<string>,
    bloodCollectionType: string, bloodGroupRequired: string)

  /** A key `requestDonorSchema` declares. */
  predicate RequestDonorKey(k: string) {
    k == "appointmentDate" || k == "appointmentTime" || k == "additionalInformation"
    || k == "bloodCollectionType" || k == "bloodGroupRequired"
  }

  /** A required key holding a string that is non-empty once trimmed. */
  predicate TrimmedPresent(body: Body, key: string) {
    HasString(body, key) && Text.Trim(body[key].s) != ""
  }

  /**
   * What `requestDonorSchema` accepts: the four required keys hold strings
   * non-empty after trimming; `additionalInformation`, if present, is a string
   * non-empty after lower-casing and trimming.
   */
  predicate RequestDonorFields(body: Body) {
    && TrimmedPresent(body, "appointmentDate") && TrimmedPresent(body, "appointmentTime")
    && TrimmedPresent(body, "bloodCollectionType") && TrimmedPresent(body, "bloodGroupRequired")
    && ("additionalInformation" in body ==>
          body["additionalInformation"].Str? && Text.Trim(Text.Lower(body["additionalInformation"].s)) != "")
  }

  /** A key is declared by `requestDonorSchema` exactly when `RequestDonorKey` names it. */
  lemma RequestDonorKeys(k: string)
    ensures Declared(RequestDonorSchema, k) <==> RequestDonorKey(k)
  {
    var s := RequestDonorSchema;
    assert s[0].key == "appointmentDate" && s[1].key == "appointmentTime" && s[2].key == "additionalInformation";
    assert s[3].key == "bloodCollectionType" && s[4].key == "bloodGroupRequired";
    if Declared(s, k) {
      var i :| 0 <= i < |s| && s[i].key == k;
      assert i == 0 || i == 1 || i == 2 || i == 3 || i == 4;
    }
  }

  /** What `requestDonorSchema` accepts: only its five keys, each as `RequestDonorFields` demands. */
  predicate RequestDonorAccepts(body: Body) {
    (forall k :: k in body.Keys ==> RequestDonorKey(k)) && RequestDonorFields(body)
  }

  /** The schema interpreter accepts exactly the bodies `RequestDonorAccepts` describes. */
  lemma RequestDonorSchemaMeaning(body: Body)
    ensures Validate(body, RequestDonorSchema, NoEmail).Valid? <==> RequestDonorAccepts(body)
  {
    forall k ensures Declared(RequestDonorSchema, k) <==> RequestDonorKey(k) { RequestDonorKeys(k); }
    RequestDonorFieldsMeaning(body);
  }

  /** The five rules of `requestDonorSchema` accept exactly what `RequestDonorFields` describes. */
  lemma RequestDonorFieldsMeaning(body: Body)
    ensures (forall i :: 0 <= i < |RequestDonorSchema| ==> FieldValid(body, RequestDonorSchema[i], NoEmail))
            <==> RequestDonorFields(body)
  {
    var s := RequestDonorSchema;
    RequestDonorRulesMeaning(body);
    if RequestDonorFields(body) {
      forall i | 0 <= i < |s| ensures FieldValid(body, s[i], NoEmail) {
        if i == 0 {} else if i == 1 {} else if i == 2 {} else if i == 3 {} else {}
      }
    }
  }

  /** Rule by rule, what each of the five accepts. */
  lemma RequestDonorRulesMeaning(body: Body)
    ensures FieldValid(body, RequestDonorSchema[0], NoEmail) && FieldValid(body, RequestDonorSchema[1], NoEmail)
      && FieldValid(body, RequestDonorSchema[2], NoEmail) && FieldValid(body, RequestDonorSchema[3], NoEmail)
      && FieldValid(body, RequestDonorSchema[4], NoEmail)
      <==> RequestDonorFields(body)
  {
    var s := RequestDonorSchema;
    RequiredField(body, s[0], NoEmail);
    RequiredField(body, s[1], NoEmail);
    OptionalField(body, s[2], NoEmail);
    RequiredField(body, s[3], NoEmail);
    RequiredField(body, s[4], NoEmail);
  }

  /**
   * The validated body: exactly the bodies `RequestDonorFields` describes with no
   * undeclared key; every value is the converted one and the four required ones
   * are non-empty.
   */
  function ValidateRequestDonor(body: Body): (r: Validated<DonorRequestBody>)
    ensures r.Valid? <==> RequestDonorAccepts(body)
    ensures r.Valid? ==>
      && r.value.appointmentDate == Text.Trim(body["appointmentDate"].s)
      && r.value.appointmentTime == Text.Trim(body["appointmentTime"].s)
      && r.value.bloodCollectionType == Text.Trim(body["bloodCollectionType"].s)
      && r.value.bloodGroupRequired == Text.Trim(body["bloodGroupRequired"].s)
      && (r.value.additionalInformation.Some? <==> "additionalInformation" in body)
      && (r.value.additionalInformation.Some? ==>
            r.value.additionalInformation.value == Text.Trim(Text.Lower(body["additionalInformation"].s)))
    ensures r.Valid? ==>
      r.value.appointmentDate != "" && r.value.appointmentTime != ""
      && r.value.bloodCollectionType != "" && r.value.bloodGroupRequired != ""
  {
    RequestDonorDistinct();
    RequestDonorSchemaMeaning(body);
    var v := Validate(body, RequestDonorSchema, NoEmail);
    if v.Invalid? then Invalid(v.detail)
    else
      var m := v.value;
      RequestDonorValues(body, m);
      Valid(DonorRequestBody(
        m["appointmentDate"], m["appointmentTime"],
        if "additionalInformation" in m then Some(m["additionalInformation"]) else None,
        m["bloodCollectionType"], m["bloodGroupRequired"]))
  }

  /** The five keys of `requestDonorSchema` are distinct. */
  lemma RequestDonorDistinct()
    ensures DistinctKeys(RequestDonorSchema)
  {
  }

  /** The map a successful validation returns holds the converted values, and the optional one only when given. */
  lemma RequestDonorValues(body: Body, m: map<string, string>)
    requires Validate(body, RequestDonorSchema, NoEmail) == Valid(m)
    ensures RequestDonorFields(body)
    ensures "appointmentDate" in m && m["appointmentDate"] == Text.Trim(body["appointmentDate"].s)
    ensures "appointmentTime" in m && m["appointmentTime"] == Text.Trim(body["appointmentTime"].s)
    ensures "bloodCollectionType" in m && m["bloodCollectionType"] == Text.Trim(body["bloodCollectionType"].s)
    ensures "bloodGroupRequired" in m && m["bloodGroupRequired"] == Text.Trim(body["bloodGroupRequired"].s)
    ensures "additionalInformation" in m <==> "additionalInformation" in body
    ensures "additionalInformation" in m ==>
      m["additionalInformation"] == Text.Trim(Text.Lower(body["additionalInformation"].s))
  {
    var s := RequestDonorSchema;
    RequestDonorRulesMeaning(body);
    assert FieldValid(body, s[0], NoEmail) && FieldValid(body, s[1], NoEmail) && FieldValid(body, s[2], NoEmail);
    assert FieldValid(body, s[3], NoEmail) && FieldValid(body, s[4], NoEmail);
    RecordedString(m, body, s[0], NoEmail);
    RecordedString(m, body, s[1], NoEmail);
    RecordedString(m, body, s[3], NoEmail);
    RecordedString(m, body, s[4], NoEmail);
    if "additionalInformation" in body {
      RecordedString(m, body, s[2], NoEmail);
    } else {
      RecordedAbsence(m, body, s[2], NoEmail);
    }
  }
}
