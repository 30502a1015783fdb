# Animal shelter: a Dafny model of the adoption workflow

The animal shelter is a Django REST back end with a Next.js front end. Volunteers
register animals, adopters ask to adopt them, and admins and volunteers complete
or cancel the adoptions. This project models the parts of the system that decide
what happens:

- **Schema** (`models.dfy`, module `Models`). The role, animal type, animal status
  and adoption status enumerations with their stored codes, the field defaults and
  column lengths, the three tables with their foreign keys, and cascading deletion.
- **Permissions** (`permissions.dfy`, module `Permissions`). The role predicates.
  Each compares the lower-cased role of a logged-in user.
- **Access** (`access.dfy`, module `Access`). The per-action permission tables of
  the user, animal and adoption viewsets, and the filter of the user listing.
- **Workflow** (`workflow.dfy`, module `Workflow`). The serializers' create and
  update operations and the animal status-change action. Each is written as a
  transition of the tables: it says how the request ends, what the tables hold
  afterwards, and which new identifier it handed out. Beside each transition are
  lemmas that state what the operation promises and that it keeps the tables
  consistent.
- **Tables** (`shelter.dfy`, module `Tables`). The tables as a `Shelter` object
  with in-place handlers. Each handler is proved to reach exactly the state and
  outcome of its transition.
- **Generic modal** (`generic_modal.dfy`, module `GenericModal`). The front end's
  edit form: the required-field validator (a loop, proved against a declarative
  verdict), the change and submit handlers, and the rule deciding which fields
  are rendered.
- **Layout** (`layout.dfy`, module `Layout`). The navigation links offered to
  each role, checked against the back end's list permissions.

Outcomes of a request are `Ok`, `BadRequest(message)` (400), `NotFound` (404),
`Forbidden` (403) and `ServerError(message)` (500). Identifiers are handed out by
counters that only grow.

Two behaviours of the code are worth stating up front:

- Deleting an adoption leaves its animal's status as it is, because no viewset
  overrides `destroy`.
- The status-change action is open to admins as well as volunteers, because the
  viewset's `get_permissions` ignores the permission classes on the action's decorator.

## Model

| member | source | states |
|---|---|---|
| Models.RoleCode | backend/backend/shelter/models.py:6-12 | the stored code of each role is non-empty and fits the 10-character role column |
| Models.AnimalTypeCode | backend/backend/shelter/models.py:18-21 | DOG and CAT fit the 3-character type column |
| Models.AnimalStatusCode | backend/backend/shelter/models.py:22-31 | the animal status codes fit the 10-character status column |
| Models.AdoptionStatusCode | backend/backend/shelter/models.py:36-45 | the adoption status codes fit the 10-character status column |
| Models.ParseRole | backend/backend/shelter/models.py:6-12 | choice validation accepts a role code exactly when some role stores it, and returns that role |
| Models.ParseAnimalType | backend/backend/shelter/models.py:18-21 | accepts exactly DOG and CAT |
| Models.ParseAnimalStatus | backend/backend/shelter/models.py:22-26 | accepts exactly AVAILABLE, ADOPTED and PENDING |
| Models.ParseAdoptionStatus | backend/backend/shelter/models.py:36-40 | accepts exactly PENDING, COMPLETED and CANCELLED |
| Models.CodesRoundTrip | backend/backend/shelter/models.py:6-40 | every enumeration value is read back from its stored code |
| Models.DeleteAnimal | backend/backend/shelter/models.py:41 | deleting an animal deletes exactly the adoptions of that animal, keeps every other row unchanged, and keeps all foreign keys valid |
| Models.DeleteUser | backend/backend/shelter/models.py:32-43 | deleting a user deletes their animals and every adoption that names them or one of those animals; every other row stays, and all foreign keys stay valid |
| Models.DeleteUserLeavesNoReference | backend/backend/shelter/models.py:32-43 | after the cascade no animal or adoption refers to the deleted user |
| Permissions.Lower | backend/backend/shelter/permissions.py:9 | lower-casing keeps the length and maps each character on its own |
| Permissions.LowerIdempotent | backend/backend/shelter/permissions.py:9 | lower-casing twice is lower-casing once |
| Permissions.LowerIgnoresCase | backend/backend/shelter/permissions.py:9 | roles that differ only in letter case lower-case alike |
| Permissions.LowerAdmin | backend/backend/shelter/permissions.py:9 | ADMIN, Admin and admin all lower-case to admin |
| Permissions.RoleCodesLowered | backend/backend/shelter/models.py:6-10 | the three stored role codes lower-case to admin, volunteer and adopter |
| Permissions.IsAdminUser | backend/backend/shelter/permissions.py:4-9 | an admin is logged in and passes neither the volunteer nor the adopter predicate |
| Permissions.IsUser | backend/backend/shelter/permissions.py:12-17 | the user-role predicate holds only for a logged-in requester |
| Permissions.IsVolunteerUser | backend/backend/shelter/views.py:6 | the volunteer predicate holds only for a logged-in requester who is not an adopter |
| Permissions.IsAdopterUser | backend/backend/shelter/views.py:6 | the adopter predicate holds only for a logged-in requester |
| Permissions.IsSpecificRole | backend/backend/shelter/permissions.py:20-27 | the role-list permission holds only for a logged-in requester and a view that declares a non-empty list of allowed roles |
| Permissions.AdminCodeIsAdmin | backend/backend/shelter/permissions.py:8-9 | the stored role ADMIN passes IsAdminUser, and so do Admin and admin |
| Permissions.IsUserHoldsForNoDeclaredRole | backend/backend/shelter/permissions.py:16-17 | IsUser fails for every declared role |
| Permissions.InLoweredMeansSomeEntry | backend/backend/shelter/permissions.py:27 | membership in the lower-cased allowed roles means some allowed role lower-cases to the given role |
| Permissions.SpecificRoleMeaning | backend/backend/shelter/permissions.py:25-27 | IsSpecificRole holds exactly for a logged-in user whose role matches some allowed role, ignoring case |
| Permissions.NoAllowedRolesGrantsNobody | backend/backend/shelter/permissions.py:26 | a view without allowed roles grants nobody |
| Permissions.AnonymousGetsNothing | backend/backend/shelter/permissions.py:9-27 | no predicate holds for an anonymous requester |
| Permissions.CaseInsensitive | backend/backend/shelter/permissions.py:9-27 | roles that lower-case alike get the same answer from every predicate |
| Access.UserActionsByRole | backend/backend/shelter/views.py:13-22 | user actions by stored role: create is open; list is for admin and volunteer; retrieve, update, partial_update and destroy are for admin; anything else needs a login |
| Access.AnimalActionsByRole | backend/backend/shelter/views.py:40-46 | animal list and retrieve need a login only; every other animal action needs admin or volunteer |
| Access.AdoptionActionsByRole | backend/backend/shelter/views.py:69-76 | adoption create is for adopters; list, retrieve and partial_update are for admin and volunteer; update and destroy are for admin |
| Access.AnonymousMaySignUpOnly | backend/backend/shelter/views.py:13-76 | without a login, signing up is the only permitted action |
| Access.VolunteerRightsAreAdminRights | backend/backend/shelter/views.py:13-76 | whatever a volunteer may do, an admin may do too |
| Access.AdopterMayOnlyRequestAdoptions | backend/backend/shelter/views.py:69-76 | an adopter may create adoptions and nothing else on them, so a partial update is refused |
| Access.ChangeStatusAdmitsAdmins | backend/backend/shelter/views.py:40-46 | the status-change action admits admins, although its decorator names volunteers only |
| Access.AdopterReadsAnimalsOnly | backend/backend/shelter/views.py:40-46 | an adopter may list and retrieve animals and nothing else |
| Access.AdoptersOnly | backend/backend/shelter/views.py:27 | the filter keeps every adopter as often as it occurs and nothing else |
| Access.ListingByRole | backend/backend/shelter/views.py:24-28 | a volunteer sees exactly the adopters; admins and adopters see all users |
| Access.LowerCaseVolunteerSeesAll | backend/backend/shelter/views.py:16-28 | the filter compares the role exactly, so a lower-case volunteer may list users and sees all of them |
| Access.UserPermission | backend/backend/shelter/views.py:13-22 | sign-up is open to everybody; every other user action requires a login |
| Access.AnimalPermission | backend/backend/shelter/views.py:40-46 | every animal action requires a login |
| Access.AdoptionPermission | backend/backend/shelter/views.py:69-76 | every adoption action requires a login |
| Access.VisibleUsers | backend/backend/shelter/views.py:24-28 | the listing returns users of the table only, each at most as often as it occurs |
| Workflow.RepresentUser | backend/backend/shelter/serializers.py:7-11 | the serialized user has the declared fields except the write-only password |
| Workflow.LastAt | backend/backend/shelter/serializers.py:14-16 | the position of the last '@' of the address: it holds an '@' and none follows it; without one, the address has no '@' |
| Workflow.NormalizeEmail | backend/backend/shelter/serializers.py:14-16 | the stored email keeps its length and every character up to the last '@', and lower-cases every character after it |
| Workflow.NormalizeEmailIdempotent | backend/backend/shelter/serializers.py:14-16 | normalizing a stored email changes nothing more |
| Workflow.NormalizeEmailIgnoresDomainCase | backend/backend/shelter/serializers.py:14-16 | addresses that agree up to the letter case of their domain are stored alike |
| Workflow.SignUp | backend/backend/shelter/serializers.py:13-23 | a refused sign-up changes nothing; only a success hands out the next user identifier; animals and adoptions are never touched |
| Workflow.RegisterAnimal | backend/backend/shelter/serializers.py:34-39 | a refused registration changes nothing; only a success hands out the next animal identifier; users and adoptions are never touched |
| Workflow.AnimalUpdate | backend/backend/shelter/serializers.py:41-67 | a refused animal update changes nothing; only a success hands out the next adoption identifier; users are never touched |
| Workflow.AdoptionRequest | backend/backend/shelter/serializers.py:79-95 | a request hands out the next adoption identifier exactly when it succeeds; a refusal changes nothing; users are never touched |
| Workflow.AdoptionUpdate | backend/backend/shelter/serializers.py:97-113 | an adoption update never hands out an identifier, never touches users, and changes nothing when refused |
| Workflow.StatusChange | backend/backend/shelter/views.py:54-62 | the status-change action never hands out an identifier, never touches users or adoptions, and changes nothing when refused |
| Workflow.SignUpRepresentation | backend/backend/shelter/serializers.py:7-21 | a successfully signed-up user reads back with its input values, the given role, the email with its domain lower-cased, the defaults ACTIVE and empty names, and no password |
| Workflow.SignUpOutcome | backend/backend/shelter/serializers.py:13-23 | sign-up succeeds exactly when the username is free, the role is given, the status fits and the email is given; a taken username, a missing role or a long status is a 400 that changes nothing (a missing role reads "This field is required."), and a missing email is a 500 that changes nothing; a success adds exactly one user with the given role, the normalized email and the defaults |
| Workflow.RegisterAnimalSetsVolunteer | backend/backend/shelter/serializers.py:34-39 | registration adds exactly one animal; its volunteer is the requester whatever the payload names, and its status defaults to AVAILABLE |
| Workflow.AnimalUpdateOutcome | backend/backend/shelter/serializers.py:41-67 | an animal update ends 404, 400, 500 (ambiguous adoption lookup) or 200 exactly as stated; a failure changes nothing; a success stores the patched animal with the requested status |
| Workflow.NoStatusNoAdoptionChange | backend/backend/shelter/serializers.py:45 | an animal update without a status neither creates nor modifies adoptions |
| Workflow.PendingFilesAdoption | backend/backend/shelter/serializers.py:45-52 | setting PENDING always files one more pending adoption by the requester, even when the animal already has one |
| Workflow.RepeatedPendingBlocksAdoption | backend/backend/shelter/serializers.py:45-65 | two PENDING updates file two adoptions, so a later ADOPTED update fails on the ambiguous lookup and changes nothing |
| Workflow.AdoptedWithoutAdoptionFilesCompleted | backend/backend/shelter/serializers.py:53-61 | setting ADOPTED on an animal with no adoption files one COMPLETED adoption by the requester |
| Workflow.AdoptedCompletesItsAdoption | backend/backend/shelter/serializers.py:53-65 | setting ADOPTED on an animal with one adoption completes it if it was pending, leaves it untouched otherwise, and files nothing |
| Workflow.RequestForUnavailableAnimal | backend/backend/shelter/serializers.py:86-87 | a request for an animal that is not AVAILABLE fails with "Animal is not available." and changes neither table |
| Workflow.AdoptionRequestOutcome | backend/backend/shelter/serializers.py:79-95 | a request succeeds exactly for a valid payload naming an AVAILABLE animal; a failure is a 400 that changes nothing |
| Workflow.AdoptionRequestFilesOne | backend/backend/shelter/serializers.py:89-95 | a successful request adds exactly one adoption; the adopter is the requester, the volunteer is the animal's volunteer, the status defaults to PENDING, and the animal becomes PENDING |
| Workflow.SecondRequestRefused | backend/backend/shelter/serializers.py:86-94 | after a successful request, the next request for the same animal fails |
| Workflow.AdoptionUpdateDrivesAnimal | backend/backend/shelter/serializers.py:97-113 | a valid patch that names no animal succeeds: the adoption takes the requested status; COMPLETED makes its animal ADOPTED, CANCELLED makes it AVAILABLE, any other or no status leaves every animal as it was |
| Workflow.AdoptionUpdateRefusals | backend/backend/shelter/serializers.py:97-103 | a missing adoption is 404, an unknown animal, adopter or volunteer is 400, and a valid patch naming an animal is 500 because the validated animal object is looked up as an integer identifier; the update succeeds exactly otherwise, and no refusal changes anything |
| Workflow.CancelReopensAnimal | backend/backend/shelter/serializers.py:105-111 | cancelling an adoption makes its animal available to a new request |
| Workflow.StatusChangeOutcome | backend/backend/shelter/views.py:54-62 | the action accepts exactly AVAILABLE, ADOPTED and PENDING and stores the requested code; anything else is 400 "invalid status" with no change; users and adoptions are never touched |
| Workflow.DeleteAdoption | backend/backend/shelter/views.py:65-76 | deleting an adoption removes that row only and leaves its animal's status as it was |
| Workflow.SignUpConsistent | backend/backend/shelter/serializers.py:13-23 | sign-up keeps foreign keys, column bounds and username uniqueness, and keeps identifiers below the counters |
| Workflow.RegisterAnimalConsistent | backend/backend/shelter/serializers.py:34-39 | registration keeps the tables consistent |
| Workflow.AnimalUpdateKeepsIntegrity | backend/backend/shelter/serializers.py:41-67 | an animal update keeps every foreign key and bound and adds at most the next adoption |
| Workflow.AnimalUpdateConsistent | backend/backend/shelter/serializers.py:41-67 | an animal update keeps the tables consistent |
| Workflow.AdoptionRequestConsistent | backend/backend/shelter/serializers.py:79-95 | an adoption request keeps the tables consistent |
| Workflow.AdoptionUpdateKeepsIntegrity | backend/backend/shelter/serializers.py:97-113 | an adoption update keeps every foreign key, bound and key set |
| Workflow.AdoptionUpdateConsistent | backend/backend/shelter/serializers.py:97-113 | an adoption update keeps the tables consistent |
| Workflow.StatusChangeConsistent | backend/backend/shelter/views.py:54-62 | the status-change action keeps the tables consistent |
| Workflow.DeletionsConsistent | backend/backend/shelter/models.py:32-43 | the three deletions keep the tables consistent |
| Tables.Shelter.constructor | backend/backend/shelter/models.py:5-45 | the tables start empty, consistent, with counters at zero |
| Tables.Shelter.CreateUser | backend/backend/shelter/serializers.py:13-23 | the sign-up handler reaches exactly the outcome and state of SignUp, including its 400 and 500 refusals, and advances the user counter when it inserts |
| Tables.Shelter.CreateAnimal | backend/backend/shelter/views.py:48-52 | the registration handler reaches exactly the outcome and state of RegisterAnimal |
| Tables.Shelter.UpdateAnimal | backend/backend/shelter/serializers.py:41-67 | the animal update handler reaches exactly the outcome, state and filed adoption of AnimalUpdate |
| Tables.Shelter.CreateAdoption | backend/backend/shelter/serializers.py:79-95 | the request handler reaches exactly the outcome, state and filed adoption of AdoptionRequest |
| Tables.Shelter.UpdateAdoption | backend/backend/shelter/serializers.py:97-113 | the adoption update handler reaches exactly the outcome and state of AdoptionUpdate, including the 500 for a patch naming an animal |
| Tables.Shelter.ChangeStatus | backend/backend/shelter/views.py:54-62 | the status-change handler reaches exactly the outcome and state of StatusChange |
| Tables.Shelter.DestroyAnimal | backend/backend/shelter/models.py:41 | deleting an existing animal applies the cascade; a missing one is 404 with no change |
| Tables.Shelter.DestroyUser | backend/backend/shelter/models.py:32-43 | deleting an existing user applies the cascade; a missing one is 404 with no change |
| Tables.Shelter.DestroyAdoption | backend/backend/shelter/views.py:65-76 | deleting an existing adoption removes it alone; a missing one is 404 with no change |
| Tables.AdoptionRequestScenario | backend/backend/shelter/tests.py:75-83 | an adopter's request for an available cat succeeds, the cat becomes PENDING, and one adoption exists |
| GenericModal.ValidateForm | frontend/src/components/GenericModal.tsx:45-85 | the loop's result is exactly the verdict, and its errors are exactly one required message per blank editable field |
| GenericModal.Verdict | frontend/src/components/GenericModal.tsx:45-85 | on an existing record a valid form has no blank editable field |
| GenericModal.LastReset | frontend/src/components/GenericModal.tsx:70-72 | the position of the last resetting field: it resets, and no later field does |
| GenericModal.NewRecordVerdict | frontend/src/components/GenericModal.tsx:59-72 | for a new record the form is invalid exactly when a required field fails after the last only-editable field |
| GenericModal.ExistingRecordVerdict | frontend/src/components/GenericModal.tsx:59-81 | an existing record is valid exactly when no editable field is blank and some editable field changed |
| GenericModal.ResetHidesMissingField | frontend/src/components/GenericModal.tsx:59-72 | a blank required field followed by an only-editable field leaves a new form valid with both errors recorded; the other order is invalid |
| GenericModal.NonEditableIgnored | frontend/src/components/GenericModal.tsx:56 | the value of a non-editable field affects neither the verdict nor the errors |
| GenericModal.ErrorsNameBlankEditableFields | frontend/src/components/GenericModal.tsx:56-63 | a key gets the error "This field is required" exactly when an editable field of that key is undefined, null or empty |
| GenericModal.HandleChange | frontend/src/components/GenericModal.tsx:38-41 | an edit sets only its own key's value and clears only its own key's error; every other key keeps its value and its error message |
| GenericModal.LastEditWins | frontend/src/components/GenericModal.tsx:38-41 | of two edits of one field, the later wins |
| GenericModal.EditAnswersRequired | frontend/src/components/GenericModal.tsx:38-63 | typing non-empty text into a field answers its required check |
| GenericModal.HandleSubmit | frontend/src/components/GenericModal.tsx:87-94 | the values are submitted, the errors cleared and the modal closed exactly when the verdict holds; otherwise the validator's errors are shown |
| GenericModal.NeverShown | frontend/src/components/GenericModal.tsx:103-124 | date fields, fields whose only_editable is false, and select fields without options are never rendered |
| GenericModal.ResettingFieldsAreHidden | frontend/src/components/GenericModal.tsx:70-72 | every field that resets the verdict on a new record is hidden on that record |
| GenericModal.NewRecordShows | frontend/src/components/GenericModal.tsx:103-124 | on a new record a field is rendered exactly when only_editable is absent and it is a text, number or optioned select field |
| GenericModal.Shown | frontend/src/components/GenericModal.tsx:103-124 | a rendered field is never a date field and never has only_editable set to false |
| Layout.GetLinks | frontend/src/components/Layout.tsx:21-51 | the list starts with Animals, offers only the three pages, and has pairwise distinct hrefs (the link keys) |
| Layout.LinksByRole | frontend/src/components/Layout.tsx:21-51 | no user gets Animals; ADMIN gets Animals, Adoptions, Users; VOLUNTEER gets Animals, Users, Adoptions; any other role gets Animals |
| Layout.SameLinksOtherOrder | frontend/src/components/Layout.tsx:28-41 | admins and volunteers get the same links in a different order |
| Layout.LinksMatchListPermissions | frontend/src/components/Layout.tsx:28-48 | for each stored role, the Users link appears exactly when the back end lets that role list users, and likewise the Adoptions link |
| Layout.LowerCaseAdminSeesAnimalsOnly | frontend/src/components/Layout.tsx:28 | a role stored as lower-case admin passes the back end's list permissions but is offered Animals only |

## Left out

- Persistence, request parsing and response encoding are not modelled. The tables are maps, and a response is reduced to its outcome.
- Field validation is reduced to what the model's types do not already enforce: column lengths, and that referenced rows exist. A full `update` (PUT) that must carry every field is not modelled; the animal and adoption updates are partial patches.
- Password hashing is not modelled. The stored credential is the submitted password; only its absence from the output is stated.
- The adoption `date` column is not modelled, because it is set from the clock.
- Lower-casing covers the ASCII letters only.
- `IsVolunteerUser` and `IsAdopterUser` are imported by the views but defined nowhere in the permission module. They are modelled by analogy with `IsAdminUser` (a case-insensitive role comparison), which is an assumption.
- The shelter handlers do not check permissions. The permission tables in `Access` decide whether a handler runs.
- The `None` check after the animal lookup in the adoption create (serializers.py:83-84) cannot fire, because the lookup raises instead of returning None. A request naming a missing animal is a 400, from field validation.
- Workflow.AdoptionUpdate: a partial update that names an animal is a 500 with nothing saved. The validated value is an animal object, and looking it up as an integer identifier raises (serializers.py:101-103). The model therefore never moves an adoption to another animal.
- `UserViewSet.me` (views.py:30-33) only serializes the requester. Its output is the user representation, which is modelled.
- Username validators, the email format check and the other inherited user columns are not modelled. Only username uniqueness, the required role and the status length are checked.
- Workflow.SignUp: when several fields fail validation, the 400 lists every failing field. The model reports the first one in the serializer's field order: username, then role, then status.
- Workflow.NormalizeEmail: the user manager that normalizes the email is part of the web framework, so it is not part of this model. Its rule is modelled as lowering the letters after the last '@' (ASCII only). The username's Unicode normalization is not modelled.
- Workflow.NewUser: the ADOPTER fallback for the role is kept as the code writes it. It never applies, because the serializer requires the role.
- urls.py, apps.py and signals.py are not part of this model: routing, and a start-up hook on a role table that the schema does not declare. The device-quantity logic those files mention is not in the modelled source.
- The front end's cookies, network calls, token refresh and route guard are not modelled. Neither are the data table, the page components, or the logging calls in the validator.
- Form values are undefined, null, booleans, strings and integers. Floating-point numbers (NaN among them) and object values are not modelled.
- Concurrent requests are not modelled; requests are handled one at a time.
- Tables.Shelter.DestroyAnimal, Tables.Shelter.DestroyUser, Tables.Shelter.DestroyAdoption: the generic destroy views are assumed to return 404 for a missing row.
