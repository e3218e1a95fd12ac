# Blood-donation backend: requests, verification and gates, in Dafny

This project models the decision logic of an Express/Mongoose backend. The backend connects blood-donation facilities with donors. It is modelled over an in-memory store: a `Database.Db` object with three parts.

- The user collection is a `seq<User>`.
- The request collection is a `seq<Request>`.
- The outbox is a `seq<Event>`. It holds every mail the handlers send.

A document's id is its position in its collection. An id past the end is the `null` that `findById` returns.

What is modelled:

- **Request lifecycle.** A facility creates a request in state Pending, with a snapshot of its organisation name and street address. A donor accepts or rejects it, and one or two mails follow the write. The guards are exactly as written in the code:
  - accepting refuses only a request that is already Accepted;
  - rejecting refuses only one that is already Rejected;
  - nobody checks who responds.

  So Accepted → Rejected and Rejected → Accepted are both reachable. After a re-accept, the old rejection reason stays on the request. `Lifecycle` states these facts as lemmas over runs of any length.
- **Facility verification.** An admin logs in (in a fixed order of checks), lists the unverified facilities, and verifies or declines one.
- **Registration and profile gates.** Covered:
  - the e-mail look-up;
  - donor registration with its eligibility test;
  - facility registration;
  - the two profile completions and the flag each one sets;
  - the ordered `profileCheck` gate;
  - the facility and admin role gates;
  - `authMiddleware`'s mapping from an Authorization header to an outcome.

  Two completion facts are proved. The donor completion sets only the verified flag, so on its own it never opens the profile gate. Both completions sit behind authentication alone, so a facility that calls both passes every gate without an admin.
- **Paging arithmetic of `getDonors`.** Covered: skip, total pages (with JavaScript's `Infinity`/`NaN` for limit 0), next and previous page, and Mongo's skip/limit window. It also covers the negative skip that makes the query fail.
- **Record defaults and validators.** Covered:
  - the user and request schema defaults, the `trim` and `lowercase` setters, and the unique e-mail index;
  - the joi schemas, run through a small interpreter (`Joi`) that lower-cases, then trims, then checks.

Where the design description and the code disagree, the model follows the code:

- **Pregnancy is ignored.** Registration refuses a donor only for the exact answers "under 18" or "below 50kg", after lower-casing. Pregnancy status is never looked at.
- **No ownership check.** A request can be answered again with the other decision, and no check compares the caller with the request's addressee.
- **A duplicate address gives 500.** A registration with an address already in use fails with 500 (the driver's duplicate-key error), not with a conflict code.
- **A refused reject body gives 500.** `rejectRequest` answers 500 when its body is refused, because that handler has no validation branch.
- **Mail failures are not modelled.** In the code, a failed mail after a committed write would answer 500. The model's mails always succeed.

## Model

| member | source | states |
|---|---|---|
| Text.Trim | src/validation/facilityValidation.ts:4-8 | JavaScript `trim`: the result is an infix of the input with only white space cut from both ends and none left at either end of it; it is empty exactly when the input is all white space |
| Text.TrimIdempotent | src/models/User.ts:6-8 | trimming an already trimmed value (a joi-trimmed value going through the schema's `trim` setter) changes nothing |
| Text.TrimPadded | src/models/User.ts:35 | any word with white space on either side trims back to exactly that word |
| Text.Lower | src/validation/authValidation.ts:9-13 | lower-casing keeps the length and maps each character by ASCII `toLowerCase` |
| Text.LowerIdempotent | src/validation/authValidation.ts:9-13 | lower-casing twice is lower-casing once |
| Text.LowerPadded | src/validation/authValidation.ts:9 | lower-casing leaves a word without capitals, padded with white space, unchanged |
| Text.Normalize | src/models/User.ts:9-15 | the stored form of an address is the lower-casing of the input with only its surrounding white space cut off: no white space at its ends, no capital letter, empty exactly for an all-space input |
| Text.NormalizeIdempotent | src/models/User.ts:9-15 | normalizing a stored address again changes nothing, so a stored address matches its own look-up |
| Text.Utf16LengthBasic | src/validation/authValidation.ts:12 | a string's JavaScript length equals its character count exactly when no character lies above U+FFFF |
| Text.Utf16LengthAstral | src/validation/authValidation.ts:12 | a string's JavaScript length is twice its character count exactly when every character lies above U+FFFF |
| Text.IndexOf | src/middleware/auth-middleware.ts:12 | the first occurrence of a pattern from a position, or -1 exactly when there is none |
| Text.ReplaceFirst | src/middleware/auth-middleware.ts:12 | `replace` with a string pattern: unchanged when the pattern does not occur, else only the FIRST occurrence is replaced |
| Interface.ParseRole | src/interface/index.ts:10-14 | exactly the three names "Donor", "Facility", "Admin" denote a role, each the one it names |
| Interface.ParseStatus | src/interface/index.ts:16-20 | exactly "Pending", "Accepted", "Rejected" denote a status, each the one it names |
| Interface.RoleNameInjective | src/interface/index.ts:10-14 | comparing role strings is comparing roles |
| Interface.RoleRoundTrip | src/interface/index.ts:10-14 | every role survives the trip to its stored name and back |
| Interface.StatusRoundTrip | src/interface/index.ts:16-20 | every status survives the trip to its stored name and back |
| UserModel.TrimPath | src/models/User.ts:6-8 | a `trim: true` path keeps absence and trims a given value |
| UserModel.NewUser | src/models/User.ts:6-89 | a created user has all four flags false, the role Donor unless one is given, the normalized address, "not-pregnant" unless given, trimmed age and weight, and no decline reason |
| UserModel.ReadUser | src/models/User.ts:20 | a normal read drops the `select: false` password and nothing else |
| UserModel.FindByEmail | src/models/User.ts:9-15 | the look-up by address normalizes the queried address; it finds a user with that stored address, or none exists |
| UserModel.FindAddress | src/models/User.ts:9-15 | the first position at or after `from` holding the address, or none exists there |
| UserModel.AppendKeepsEmailsUnique | src/models/User.ts:12 | adding a user whose normalized address is not taken keeps the unique index |
| UserModel.UpdateKeepsEmailsUnique | src/models/User.ts:12 | changing any field but the address of a stored user keeps the unique index |
| RequestModel.Create | src/models/Request.ts:4-23 | creation fails exactly when a required path (organisation name, address, blood group, collection type) is missing or empty; a created request is Pending, unanswered, has a null reason, the default information text when none is given, the schema-load time as `createdAt`, and the input's links and values |
| RequestModel.SharedCreatedAt | src/models/Request.ts:22 | every request created without `createdAt` gets the same creation time |
| Lifecycle.Respond | src/controllers/donorController.ts:48-74 | a response conflicts exactly when the request already has the decision's status; otherwise it writes that status and the time, a rejection also its reason, an acceptance keeps the old reason, and nothing else changes |
| Lifecycle.CreatedIsConsistent | src/models/Request.ts:9-19 | a new request meets the invariant: answered exactly when not Pending, a reason when Rejected, required paths filled |
| Lifecycle.RespondKeepsConsistent | src/controllers/donorController.ts:71-74 | each response keeps the stored-request invariant |
| Lifecycle.RunKeepsConsistent | src/controllers/donorController.ts:136-150 | any sequence of responses keeps the invariant and the creation snapshot |
| Lifecycle.RunEndsInLastTarget | src/controllers/donorController.ts:48-56 | after any non-empty sequence of responses the status is the target of the last decision, since neither terminal status is final |
| Lifecycle.PendingOnlyBeforeResponses | src/controllers/donorController.ts:71-74 | a request is Pending after a run exactly when it was Pending and no response came |
| Lifecycle.AcceptAfterReject | src/controllers/donorController.ts:48-56 | a Rejected request can be accepted, and it keeps its rejection reason |
| Lifecycle.RejectAfterAccept | src/controllers/donorController.ts:136-150 | an Accepted request can be rejected, with the new time and reason |
| Lifecycle.StaleReasonAfterReaccept | src/controllers/donorController.ts:71-74 | rejecting then accepting leaves an Accepted request that still carries the old reason |
| Lifecycle.RepeatConflicts | src/controllers/donorController.ts:48-56 | repeating a decision that went through is a conflict |
| Joi.CheckField | src/validation/authValidation.ts:3-14 | an absent key fails only a required rule; a non-string always fails; a string passes exactly when its converted form is non-empty, within `max` UTF-16 code units and, if asked, an e-mail address; the value recorded is the converted string |
| Joi.RequiredField | src/validation/authValidation.ts:9-12 | a required rule accepts exactly a string whose converted form passes |
| Joi.OptionalField | src/validation/facilityValidation.ts:6 | an optional rule accepts an absence, or a string whose converted form passes |
| Joi.RecordedString | src/validation/facilityValidation.ts:4-8 | an accepted string is recorded in its converted form |
| Joi.RecordedAbsence | src/validation/facilityValidation.ts:6 | an absent optional key is not recorded |
| Joi.Fields | src/validation/facilityValidation.ts:3-9 | validating the keys in schema order succeeds exactly when each passes; each value is recorded and only declared keys appear |
| Joi.Validate | src/validation/facilityValidation.ts:3-9 | a body is accepted exactly when every rule passes and it has no undeclared key; the result records each converted value |
| AuthValidation.LookUpMail | src/validation/authValidation.ts:3-5 | accepted exactly when the body has only `email`, a string that is non-empty and an address once trimmed; the result is the trimmed address |
| AuthValidation.OnboardDonorsKeys | src/validation/authValidation.ts:7-14 | the onboarding schema declares exactly its six keys |
| AuthValidation.OnboardDonorsSchemaMeaning | src/validation/authValidation.ts:7-14 | the interpreter accepts exactly the bodies `OnboardDonorAccepts` describes |
| AuthValidation.OnboardDonorsFieldsMeaning | src/validation/authValidation.ts:8-13 | the six rules together accept exactly what `OnboardDonorFields` describes |
| AuthValidation.OnboardDonorsRulesMeaning | src/validation/authValidation.ts:8-13 | rule by rule, what each onboarding rule accepts |
| AuthValidation.OnboardDonorsValues | src/validation/authValidation.ts:8-13 | a successful validation records the trimmed address, phone and password and the lower-cased age, weight and pregnancy status |
| AuthValidation.OnboardDonor | src/validation/authValidation.ts:7-14 | accepted exactly when all six keys are present as strings and nothing else; address, phone and password trimmed and non-empty, password at most 20 UTF-16 code units, age, weight and pregnancy lower-cased and non-empty; the result holds those converted values |
| AuthValidation.AstralPasswordRefused | src/validation/authValidation.ts:12 | `max(20)` counts code units: a password of more than ten characters all above U+FFFF is refused, even when it has at most 20 characters |
| AuthValidation.AdminLogin | src/validation/authValidation.ts:16-19 | accepted exactly when the body holds only `email` (an untrimmed address) and a non-empty `password`; the result is both, unchanged |
| AuthValidation.RejectFacility | src/validation/authValidation.ts:21-32 | accepted exactly when both `facilityId` and `rejectionReason` are non-empty strings and nothing else is present; the result is the reason |
| FacilityValidation.RequestDonorKeys | src/validation/facilityValidation.ts:3-9 | the schema declares exactly its five keys |
| FacilityValidation.RequestDonorSchemaMeaning | src/validation/facilityValidation.ts:3-9 | the interpreter accepts exactly the bodies `RequestDonorAccepts` describes |
| FacilityValidation.RequestDonorFieldsMeaning | src/validation/facilityValidation.ts:4-8 | the five rules together accept exactly what `RequestDonorFields` describes |
| FacilityValidation.RequestDonorRulesMeaning | src/validation/facilityValidation.ts:4-8 | rule by rule, what each request-donor rule accepts |
| FacilityValidation.RequestDonorValues | src/validation/facilityValidation.ts:4-8 | a successful validation records the four trimmed values, and the lower-cased then trimmed information only when given |
| FacilityValidation.ValidateRequestDonor | src/validation/facilityValidation.ts:3-9 | accepted exactly when only the five keys appear, the four required ones non-empty once trimmed and the optional one non-empty once converted; the result holds the converted values and the information only when given |
| Notifications.Display | src/controllers/donorController.ts:75 | a template literal renders a missing value as "undefined" and a given one as itself |
| Query.Select | src/controllers/adminController.ts:79-82 | `find(filter)`: ids in range that match, every match among them, in increasing store order |
| Query.Pick | src/controllers/facilityController.ts:144 | the documents with the given ids, in that order |
| Query.SelectNone | src/controllers/facilityController.ts:141-144 | a filter no document satisfies finds nothing |
| Database.Db.constructor | src/models/User.ts:12 | an empty store meets the unique index and the request invariant |
| Database.Db.InsertUser | src/models/User.ts:9-15 | `User.create` succeeds exactly when the address is non-empty and not yet taken; then the user is appended, otherwise nothing changes |
| Database.Db.SetUser | src/controllers/adminController.ts:120-122 | an update that leaves the address alone replaces exactly that user and keeps the index |
| Database.Db.InsertRequest | src/controllers/facilityController.ts:90-99 | a consistent request is appended and the invariant kept |
| Database.Db.SetRequest | src/controllers/donorController.ts:71-74 | a consistent replacement changes exactly that request |
| Database.Db.Send | src/controllers/donorController.ts:83-102 | the mails are appended to the outbox in order and nothing else changes |
| ValidateMiddleware.FirstFailure | src/middleware/validateMiddleware.ts:94-98 | no message exactly when no condition holds; otherwise the message of a holding check with none holding before it |
| ValidateMiddleware.ProfileGate | src/middleware/validateMiddleware.ts:89-98 | 401 "Profile not completed" whenever the profile is incomplete, whatever the verified flag; 401 "Profile not verified" when complete but unverified; on exactly when both flags hold |
| ValidateMiddleware.ProfileCheck | src/middleware/validateMiddleware.ts:83-101 | the loop over the check list answers exactly as the ordered gate decides |
| ValidateMiddleware.AuthorizeFacility | src/middleware/validateMiddleware.ts:54-81 | on exactly for a Facility; 403 for other roles; 401 with no user |
| AuthMiddleware.ExtractToken | src/middleware/auth-middleware.ts:12 | the token is the header with its first "Bearer " removed, absent with the header |
| AuthMiddleware.Authenticate | src/middleware/auth-middleware.ts:7-43 | 401 "No token provided" for no or an empty token; a verified id naming a user attaches that user as read; 404 for an id naming none; 401 "Token expired" and 401 "Invalid token" for the two verifier failures |
| AuthMiddleware.BearerStripped | src/middleware/auth-middleware.ts:12 | "Bearer " + t yields the token t |
| AuthMiddleware.NoBearerKept | src/middleware/auth-middleware.ts:12 | a header without "Bearer " is used whole |
| AuthMiddleware.BareBearerRefused | src/middleware/auth-middleware.ts:12-22 | the header "Bearer " alone is refused as carrying no token |
| AuthMiddleware.AuthorizeAdmin | src/middleware/auth-middleware.ts:45-72 | on exactly for an Admin; 403 for other roles; 401 with no user |
| DonorController.FindUser | src/controllers/donorController.ts:77 | `findById`: the user as read exactly when the id is stored |
| DonorController.Populate | src/controllers/donorController.ts:17 | each listed request comes with its sender as read, or none when the sender is gone |
| DonorController.AddressedTo | src/controllers/donorController.ts:17 | exactly the requests whose `sentTo` is the donor, whatever their status, in store order (strictly increasing ids) |
| DonorController.PopulateComplete | src/controllers/donorController.ts:17 | every request addressed to the donor is in the populated list |
| DonorController.FetchRequests | src/controllers/donorController.ts:14-36 | 500 with no user; otherwise 200 with only requests addressed to the caller, each with its sender, and every such request present; the list is the addressed requests one for one, in store order |
| DonorController.AcceptMails | src/controllers/donorController.ts:83-102 | two mails: the acceptance to the sender's address, then the appointment (with the request's address and the sender's phone) to the caller's address |
| DonorController.AcceptRequest | src/controllers/donorController.ts:38-121 | 404 for an unknown id and 409 for an Accepted request, nothing written; otherwise Accepted and the time are written with the reason kept, then 500 without a caller or sender (after the write), else the two mails and 200 |
| DonorController.RejectRequest | src/controllers/donorController.ts:123-182 | a refused body is 500 before any look-up; 404 and 409 (already Rejected) write nothing; otherwise Rejected, time and reason are written, then 500 without caller or sender, else one decline mail with the reason to the sender and 200 |
| FacilityController.UnfilteredMatchesDonors | src/controllers/facilityController.ts:14-19 | with no filter given the search matches exactly the donors |
| FacilityController.FilterNarrows | src/controllers/facilityController.ts:16-19 | giving one more filter can only narrow the search |
| FacilityController.DonorIds | src/controllers/facilityController.ts:14-25 | ids of exactly the matching users, in increasing store order |
| FacilityController.Skip | src/controllers/facilityController.ts:21 | not negative for a page from 1 and a limit not negative; 0 on page 1 |
| FacilityController.TotalPages | src/controllers/facilityController.ts:31 | for a positive limit the least number of pages that hold every donor; for a negative one the ceiling of the negative quotient; `Infinity`, or `NaN` with no donors, for limit 0 |
| FacilityController.NextPage | src/controllers/facilityController.ts:33-34 | the next page is always page + 1; for a finite page total it exists exactly when the page is below the total; never after `NaN`, always before `Infinity` |
| FacilityController.PreviousPage | src/controllers/facilityController.ts:35-36 | a previous page exactly after page 1, and it is page - 1 |
| FacilityController.NextIffMoreDonors | src/controllers/facilityController.ts:31-34 | with a positive limit there is a next page exactly when donors remain beyond the current page |
| FacilityController.ZeroLimitNeverEnds | src/controllers/facilityController.ts:27-34 | with limit 0 and any donor, every page has a next page |
| FacilityController.PreviousOfNext | src/controllers/facilityController.ts:33-36 | going forward then back returns to the starting page |
| FacilityController.Window | src/controllers/facilityController.ts:25-27 | the documents from position `skip` on, at most the limit's absolute value of them (all for 0), and a full page whenever more remain |
| FacilityController.PageOf | src/controllers/facilityController.ts:21-27 | with a positive limit, result position j is on page j / limit + 1 at offset j % limit |
| FacilityController.DonorsOnPage | src/controllers/facilityController.ts:25-28 | the page's users are the window of the matching ids, read without password, each matching, at most the limit |
| FacilityController.ReadKeepsMatches | src/controllers/facilityController.ts:25-28 | dropping the password from read donors does not change whether they match |
| FacilityController.GetDonors | src/controllers/facilityController.ts:10-64 | 500 exactly when the skip is negative; otherwise 200 with exactly the matching donors in the skip/limit window of the search, read without password, the match count, the page number, and next/previous as the paging rules give |
| FacilityController.DonorListedOnItsPage | src/controllers/facilityController.ts:21-36 | with a positive limit, the j-th matching donor is listed on page j / limit + 1 |
| FacilityController.CreatedRequestSnapshot | src/controllers/facilityController.ts:80-99 | a created request copies the caller's organisation name and street address, links donor and caller, is Pending, and has no appointment time although the body had to hold one |
| FacilityController.CreateNeedsSnapshot | src/controllers/facilityController.ts:87-99 | after a valid body the request is created exactly when the caller has a non-empty organisation name and street address |
| FacilityController.RequestDonor | src/controllers/facilityController.ts:66-130 | in order: 404 without a user, 404 for an unknown donor (role not checked), 422 for a refused body, 500 when creation fails; otherwise the request is added, one mail goes to the donor, 201; nothing written on failure |
| FacilityController.SendRequest | src/controllers/facilityController.ts:87-110 | the created request is appended and the donor mailed with the caller's organisation name, or 500 with nothing written |
| FacilityController.SentIds | src/controllers/facilityController.ts:141-144 | ids of exactly the requests the caller sent with the given status, when one is given, in store order (strictly increasing) |
| FacilityController.GetRequests | src/controllers/facilityController.ts:132-179 | 404 without a user; otherwise 200 with only matching requests, every matching request present; the list is the matching documents one for one in store order, and `totalRequests` is the number of matching documents |
| FacilityController.UnknownStatusMatchesNothing | src/controllers/facilityController.ts:142 | a status string naming no status yields an empty list |
| AdminController.LoginAdmin | src/controllers/adminController.ts:12-72 | in order: 422 for a refused body; 400 for an unknown address; 403 for a non-Admin; 500 with no stored hash; 400 with the same message for a wrong password; otherwise a token for that Admin |
| AdminController.RoleCheckedBeforePassword | src/controllers/adminController.ts:30-49 | for a known non-Admin the answer is 403 whatever the password comparison says |
| AdminController.GetUnverifiedFacilities | src/controllers/adminController.ts:77-99 | exactly the Facility users whose profile is not verified, in store order (strictly increasing ids) |
| AdminController.VerifiedLeavesList | src/controllers/adminController.ts:120-122 | a verified user is no longer listed as unverified |
| AdminController.DeclinedFacilityListed | src/controllers/adminController.ts:169-172 | a declined facility is listed again; a second decline only replaces the reason |
| AdminController.VerifyFacility | src/controllers/adminController.ts:104-145 | 404 for an unknown id, nothing written; otherwise only the verified flag is set (already verified or not, any role), one mail with the organisation name, 200 |
| AdminController.RejectFacility | src/controllers/adminController.ts:150-208 | 422 for a refused body before any look-up; 404 for an unknown path id; otherwise the flag cleared and the reason recorded, one mail with the reason, 200; the body's `facilityId` is not used |
| AuthController.LookUpMail | src/controllers/authController.ts:28-68 | 422 for a refused body; 400 exactly when some stored address equals the normalized one; 200 exactly when none does |
| AuthController.FreeAddressCanRegister | src/controllers/authController.ts:31-48 | an address reported free normalizes to a non-empty address that `User.create` accepts |
| AuthController.UpperCaseAgeRefused | src/controllers/authController.ts:78 | every age that lower-cases to "under 18", in any letter case, is refused, since age is lower-cased before the comparison |
| AuthController.PaddedAgePassesGate | src/controllers/authController.ts:78-97 | every age that is "under 18" with white space before or after it passes the gate (for a weight that is not refused), and the schema's `trim` setter then stores it as "under 18" |
| AuthController.RegisterDonor | src/controllers/authController.ts:73-128 | 422 for a refused body; 400 for an ineligible donor; both write nothing; otherwise the donor with the converted answers is created and mailed once, 201, or 500 with nothing written when the address is taken |
| AuthController.RegisterFacility | src/controllers/authController.ts:238-290 | 422 for a refused body; otherwise a Facility user with its names and organisation name is created and mailed once, 201, or 500 with nothing written when the address is empty or taken |
| AuthController.Overwrite | src/controllers/authController.ts:199-201 | a `$set` path given a value takes it; an undefined one keeps the stored value |
| AuthController.ApplyDonorProfile | src/controllers/authController.ts:151-201 | the donor completion sets the verified flag; each given field is written (first, middle and last name and gender through their `trim` setter; blood group, city, state and street address as given) and each absent one kept; the completed flag, address, phone number, role, password, eligibility, organisation name, other flags and decline reason are kept |
| AuthController.ApplyFacilityProfile | src/controllers/authController.ts:300-325 | the facility completion sets the completed flag and the organisation name when given, and changes nothing else |
| AuthController.CompletionsIdempotent | src/controllers/authController.ts:199-201 | sending the same profile twice stores the same document as sending it once |
| AuthController.CompletionsCommute | src/controllers/authController.ts:196 | the two completions write disjoint fields, so their order does not matter |
| AuthController.NewAccountNotCompleted | src/models/User.ts:89 | a newly registered donor or facility is stopped by the profile gate as not completed |
| AuthController.DonorCompletionAloneStopped | src/controllers/authController.ts:196 | a donor who has only completed the donor profile is still stopped as not completed |
| AuthController.FacilitySelfVerifies | src/routes/authRoutes.ts:17-23 | a facility that calls both completions passes the profile gate (in either order) and the facility gate, without admin verification |
| AuthController.CompleteDonorProfile | src/controllers/authController.ts:133-233 | 422 for a refused body; 404 without a user or for an unknown id; otherwise the caller's document gets the donor update and 200; nothing sent |
| AuthController.CompleteFacilityProfile | src/controllers/authController.ts:295-357 | 422 for a refused body; 404 without a user or for an unknown id; otherwise the caller's document gets the facility update and 200; nothing sent |

## Left out

- src/emails/sendMails.ts is not part of this model. Each mail is an event with its recipient and template values. Rendering, transport and delivery failure (which would answer 500 after a committed write) are not modelled.
- The two acceptance mails are sent through `Promise.all`. The model appends them in argument order.
- JWT signing and verification are a verdict function parameter (`verify`). The login result carries only the id that goes into the token.
- bcrypt hashing and comparison are the parameters `hash` and `passwordMatches`. The salt setting is left out.
- joi's e-mail format check is the parameter `isEmail`. joi's error message texts are abstract: the detail is the failing key.
- Mongo ids are positions. A malformed id string (a cast error, 500) is not modelled. An unknown id is a position past the end.
- `parseInt` of a non-numeric page or limit (`NaN`) is left out. So are query parameters given as arrays.
- Lower-casing covers the ASCII letters only. JavaScript also lower-cases other alphabets.
- Only the password is dropped from read documents. The other `select` projections of `getDonors` are left out.
- The health and lifestyle questionnaire, bio, occupation, marital status, and the facility details other than the organisation name are not modelled. Neither is the failure (a TypeError that the catch answers with 500) when `lifeStyleInformation`, `healthInformation` or `facilityInformation` is missing from a donor completion body, or when `facilityInformation` or `accreditation` is missing from a facility completion body (src/controllers/authController.ts:300-319).
- The schemas of `rejectRequest`, `registerFacility`, `completeDonorProfile` and `completeFacilityProfile` are not part of this model. Each handler takes its schema's verdict as a parameter.
- Concurrency: the read-then-write race in accept and reject is not modelled. Each handler runs to completion.
- `profileCheck` with no user attached (it throws outside any handler) is left out. So is the `validateEmailToken` path with e-mail verification. So are the `login` and `verifyEmailAddress` handlers: the routes import them, but this controller file does not define them.
- Mongoose's strict mode may drop `profileDeclineVerificationReason`, which the user schema does not declare. The model keeps what the code writes.
- Store failures other than the modelled ones (the catch-all 500) are left out. So is `getRequests`' unreachable "Requests could not be retrieved" branch.
- UserModel.NewUser: the `trim: true` setter on `password` is not applied. The stored value is the bcrypt hash, which holds no white space, so the setter leaves it unchanged.
- Two Mongoose behaviours are assumed. First, schema setters (`trim`, `lowercase`) run on query filter values, so a look-up by address normalizes the queried address (UserModel.FindByEmail, AuthController.LookUpMail); Mongoose does this from version 5 on. Second, keys whose value is `undefined` are removed from a `$set` update, so an absent field keeps its stored value (AuthController.Overwrite); Mongoose does this from version 7 on, while earlier versions write `null` unless `omitUndefined` is set.
