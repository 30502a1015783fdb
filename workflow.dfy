/** The adoption workflow as transitions of the tables: the serializers'
    create and update operations on users, animals and adoptions, and the
    animal status-change action. Each transition says how the request ends,
    what the tables hold afterwards and which identifier it handed out. The
    `Shelter` object in module Tables performs them in place. */
module Workflow {
  import opened Outcomes
  import opened Models
  import Permissions

  // ---------------------------------------------------------------------------
  // Request payloads (validated data); an absent key is None
  // ---------------------------------------------------------------------------

  /** The sign-up payload. The role column has neither a default nor a blank
      value, so the serializer requires it; the email column may be blank, so
      the serializer lets it be left out. */
  datatype UserInput = UserInput(username: string, email: Option<string>, password: string,
                                 firstName: Option<string>, lastName: Option<string>,
                                 role: Option<Role>, status: Option<string>)

  datatype AnimalInput = AnimalInput(name: string, age: int, breed: string, animalType: AnimalType,
                                     status: Option<AnimalStatus>, volunteer: Option<UserId>)

  datatype AnimalPatch = AnimalPatch(name: Option<string>, age: Option<int>, breed: Option<string>,
                                     animalType: Option<AnimalType>, status: Option<AnimalStatus>,
                                     volunteer: Option<UserId>)

  /** The adoption payload; adopter and volunteer may be sent but are overwritten. */
  datatype AdoptionInput = AdoptionInput(animal: Option<AnimalId>, adopter: Option<UserId>,
                                         volunteer: Option<UserId>, status: Option<AdoptionStatus>)

  datatype AdoptionPatch = AdoptionPatch(animal: Option<AnimalId>, adopter: Option<UserId>,
                                         volunteer: Option<UserId>, status: Option<AdoptionStatus>)

  const NotAvailable := "Animal is not available."
  const InvalidStatus := "invalid status"
  const InvalidInput := "Invalid input."
  const InvalidPk := "Invalid pk - object does not exist."
  const MultipleObjects := "get() returned more than one Adoption"
  const UsernameExists := "A user with that username already exists."
  const StatusTooLong := "Ensure this field has no more than 20 characters."
  const FieldRequired := "This field is required."
  const MissingEmail := "KeyError: 'email'"
  const AnimalIdLookup := "TypeError: Field 'id' expected a number but got an Animal."

  /** The user row built at sign-up: the email is normalized, names default
      to empty, the role to ADOPTER (a default the serializer's own required
      check leaves unused), the status to ACTIVE. */
  function NewUser(data: UserInput): User
    requires data.email.Some?
  {
    User(data.username, NormalizeEmail(data.email.value), data.password,
         data.firstName.GetOr(""), data.lastName.GetOr(""),
         data.role.GetOr(Adopter), data.status.GetOr(DefaultUserStatus))
  }

  // ---------------------------------------------------------------------------
  // Email normalization by the user manager
  // ---------------------------------------------------------------------------

  /** The position of the last '@' in `s`, if there is one. */
  function LastAt(s: string): (r: Option<nat>)
    ensures r.Some? ==> r.value < |s| && s[r.value] == '@' && forall j :: r.value < j < |s| ==> s[j] != '@'
    ensures r.None? ==> forall j :: 0 <= j < |s| ==> s[j] != '@'
  {
    if |s| == 0 then None
    else if s[|s| - 1] == '@' then Some(|s| - 1)
    else LastAt(s[..|s| - 1])
  }

  /** Position `j` of `e` lies after its last '@'. */
  predicate InDomain(e: string, j: int) {
    LastAt(e).Some? && LastAt(e).value < j
  }

  /** The email as stored: the part after the last '@' is lower-cased; an
      address without '@' is kept as it is. */
  function NormalizeEmail(e: string): (r: string)
    ensures |r| == |e|
    ensures forall j :: 0 <= j < |e| ==> r[j] == if InDomain(e, j) then Permissions.LowerChar(e[j]) else e[j]
  {
    match LastAt(e)
    case None => e
    case Some(i) => e[..i] + "@" + Permissions.Lower(e[i + 1..])
  }

  /** Two sequences agreeing on '@' positions have the same last '@'. */
  lemma {:induction false} LastAtDependsOnAtsOnly(s: string, t: string)
    requires |s| == |t|
    requires forall j :: 0 <= j < |s| ==> (s[j] == '@' <==> t[j] == '@')
    ensures LastAt(s) == LastAt(t)
  {
    if |s| > 0 && s[|s| - 1] != '@' {
      LastAtDependsOnAtsOnly(s[..|s| - 1], t[..|t| - 1]);
    }
  }

  /** Lower-casing neither creates nor removes an '@'. */
  lemma NormalizeEmailKeepsAts(e: string)
    ensures forall j :: 0 <= j < |e| ==> (NormalizeEmail(e)[j] == '@' <==> e[j] == '@')
  {
  }

  /** Normalizing a stored email changes nothing more. */
  lemma NormalizeEmailIdempotent(e: string)
    ensures NormalizeEmail(NormalizeEmail(e)) == NormalizeEmail(e)
  {
    var r := NormalizeEmail(e);
    NormalizeEmailKeepsAts(e);
    LastAtDependsOnAtsOnly(e, r);
    var rr := NormalizeEmail(r);
    forall j | 0 <= j < |r|
      ensures rr[j] == r[j]
    {
      assert InDomain(r, j) == InDomain(e, j);
    }
  }

  /** Addresses that agree up to the letter case of their domain are stored alike. */
  lemma NormalizeEmailIgnoresDomainCase(e1: string, e2: string)
    requires |e1| == |e2|
    requires forall j :: 0 <= j < |e1| && !InDomain(e1, j) ==> e1[j] == e2[j]
    requires forall j :: 0 <= j < |e1| && InDomain(e1, j) ==> Permissions.LowerChar(e1[j]) == Permissions.LowerChar(e2[j])
    ensures NormalizeEmail(e1) == NormalizeEmail(e2)
  {
    forall j | 0 <= j < |e1|
      ensures e1[j] == '@' <==> e2[j] == '@'
    {
      if InDomain(e1, j) {
        assert e1[j] != '@';
      }
    }
    LastAtDependsOnAtsOnly(e1, e2);
    var r1, r2 := NormalizeEmail(e1), NormalizeEmail(e2);
    forall j | 0 <= j < |e1|
      ensures r1[j] == r2[j]
    {
      assert InDomain(e1, j) == InDomain(e2, j);
    }
  }

  // ---------------------------------------------------------------------------
  // Serialized output of a user
  // ---------------------------------------------------------------------------

  datatype Json = JInt(n: int) | JStr(s: string)

  const UserFields: seq<string> := ["id", "username", "email", "password", "first_name", "last_name", "role", "status"]
  const WriteOnlyFields: set<string> := {"password"}

  function UserFieldValue(id: UserId, u: User, f: string): Json {
    if f == "id" then JInt(id)
    else if f == "username" then JStr(u.username)
    else if f == "email" then JStr(u.email)
    else if f == "password" then JStr(u.password)
    else if f == "first_name" then JStr(u.firstName)
    else if f == "last_name" then JStr(u.lastName)
    else if f == "role" then JStr(RoleCode(u.role))
    else JStr(u.status)
  }

  /** The serialized user: every declared field except the write-only password. */
  function RepresentUser(id: UserId, u: User): (out: map<string, Json>)
    ensures "password" !in out
    ensures out.Keys == {"id", "username", "email", "first_name", "last_name", "role", "status"}
  {
    var out := map f | f in UserFields && f !in WriteOnlyFields :: UserFieldValue(id, u, f);
    assert UserFields[0] == "id" && UserFields[1] == "username" && UserFields[2] == "email";
    assert UserFields[4] == "first_name" && UserFields[5] == "last_name";
    assert UserFields[6] == "role" && UserFields[7] == "status";
    out
  }

  /** What a freshly signed-up user looks like from the outside: the given
      role, the normalized email and the defaults show, the password does not. */
  lemma SignUpRepresentation(db: Db, id: UserId, data: UserInput)
    requires SignUp(db, id, data).outcome.Ok?
    ensures id in SignUp(db, id, data).db.users
    ensures var out := RepresentUser(id, SignUp(db, id, data).db.users[id]);
      && "password" !in out
      && out["id"] == JInt(id)
      && out["username"] == JStr(data.username)
      && out["email"] == JStr(NormalizeEmail(data.email.value))
      && out["first_name"] == JStr(data.firstName.GetOr(""))
      && out["last_name"] == JStr(data.lastName.GetOr(""))
      && out["role"] == JStr(RoleCode(data.role.value))
      && out["status"] == JStr(if data.status.Some? then data.status.value else "ACTIVE")
  {
    assert SignUp(db, id, data).db.users == db.users[id := NewUser(data)];
    var out := RepresentUser(id, NewUser(data));
    assert UserFields[0] == "id" && UserFields[1] == "username" && UserFields[2] == "email";
    assert UserFields[4] == "first_name" && UserFields[5] == "last_name";
    assert UserFields[6] == "role" && UserFields[7] == "status";
  }

  // ---------------------------------------------------------------------------
  // Field validation and field copying
  // ---------------------------------------------------------------------------

  predicate AnimalInputValid(users: map<UserId, User>, data: AnimalInput) {
    && |data.name| <= NameMaxLength
    && |data.breed| <= BreedMaxLength
    && (data.volunteer.Some? ==> data.volunteer.value in users)
  }

  predicate AdoptionInputValid(db: Db, data: AdoptionInput) {
    && data.animal.Some? && data.animal.value in db.animals
    && (data.adopter.Some? ==> data.adopter.value in db.users)
    && (data.volunteer.Some? ==> data.volunteer.value in db.users)
  }

  predicate AnimalPatchValid(users: map<UserId, User>, p: AnimalPatch) {
    && (p.name.Some? ==> |p.name.value| <= NameMaxLength)
    && (p.breed.Some? ==> |p.breed.value| <= BreedMaxLength)
    && (p.volunteer.Some? ==> p.volunteer.value in users)
  }

  predicate AdoptionPatchValid(users: map<UserId, User>, animals: map<AnimalId, Animal>, p: AdoptionPatch) {
    && (p.animal.Some? ==> p.animal.value in animals)
    && (p.adopter.Some? ==> p.adopter.value in users)
    && (p.volunteer.Some? ==> p.volunteer.value in users)
  }

  /** The animal row built at registration: the status defaults to AVAILABLE
      and the volunteer is the requester. */
  function NewAnimal(requester: UserId, data: AnimalInput): Animal {
    Animal(data.name, data.age, data.breed, data.animalType, data.status.GetOr(DefaultAnimalStatus), requester)
  }

  /** The instance update: every field present in the patch replaces the stored one. */
  function ApplyAnimalPatch(a: Animal, p: AnimalPatch): Animal {
    Animal(p.name.GetOr(a.name), p.age.GetOr(a.age), p.breed.GetOr(a.breed),
           p.animalType.GetOr(a.animalType), p.status.GetOr(a.status), p.volunteer.GetOr(a.volunteer))
  }

  function ApplyAdoptionPatch(x: Adoption, p: AdoptionPatch): Adoption {
    Adoption(p.animal.GetOr(x.animal), p.adopter.GetOr(x.adopter),
             p.volunteer.GetOr(x.volunteer), p.status.GetOr(x.status))
  }

  /** An existing adoption met while marking its animal adopted: a pending one is completed. */
  function CompleteIfPending(x: Adoption): Adoption {
    if x.status == AdoptionStatus.Pending then x.(status := Completed) else x
  }

  lemma SubsetCardinality(small: set<AdoptionId>, big: set<AdoptionId>)
    requires small <= big
    ensures |small| <= |big|
  {
    assert big == small + (big - small);
  }

  lemma SingletonSet(s: set<AdoptionId>, d: AdoptionId)
    requires |s| == 1 && d in s
    ensures s == {d}
  {
    assert |s - {d}| == 0;
  }

  // ---------------------------------------------------------------------------
  // Transitions
  // ---------------------------------------------------------------------------

  /** How a request ends, the tables afterwards, and the identifier of the row
      it inserted, if any. */
  datatype Step = Step(outcome: Outcome, db: Db, created: Option<nat>)

  /** The identifier counter after a step: it advances when a row was inserted. */
  function Next(n: nat, created: Option<nat>): nat {
    if created.Some? then n + 1 else n
  }

  /** Sign-up with identifier `nextId`. Field validation refuses a taken
      username, a missing role and a status too long for its column, reporting
      the first failing field in declaration order; a payload without email
      then fails when the serializer reads it. */
  function SignUp(db: Db, nextId: UserId, data: UserInput): (r: Step)
    ensures !r.outcome.Ok? ==> r.db == db && r.created.None?
    ensures r.created.Some? ==> r.created == Some(nextId) && r.outcome.Ok?
    ensures r.db.animals == db.animals && r.db.adoptions == db.adoptions
  {
    if UsernameTaken(db.users, data.username) then Step(BadRequest(UsernameExists), db, None)
    else if data.role.None? then Step(BadRequest(FieldRequired), db, None)
    else if |data.status.GetOr(DefaultUserStatus)| > UserStatusMaxLength then Step(BadRequest(StatusTooLong), db, None)
    else if data.email.None? then Step(ServerError(MissingEmail), db, None)
    else Step(Ok, db.(users := db.users[nextId := NewUser(data)]), Some(nextId))
  }

  /** Animal registration by `requester` with identifier `nextId`. */
  function RegisterAnimal(db: Db, nextId: AnimalId, requester: UserId, data: AnimalInput): (r: Step)
    ensures !r.outcome.Ok? ==> r.db == db && r.created.None?
    ensures r.created.Some? ==> r.created == Some(nextId) && r.outcome.Ok?
    ensures r.db.users == db.users && r.db.adoptions == db.adoptions
  {
    if !AnimalInputValid(db.users, data) then Step(BadRequest(InvalidInput), db, None)
    else Step(Ok, db.(animals := db.animals[nextId := NewAnimal(requester, data)]), Some(nextId))
  }

  /** Every adoption of animal `a` that is pending becomes completed. */
  function CompleteAdoptionsOf(adoptions: map<AdoptionId, Adoption>, a: AnimalId): map<AdoptionId, Adoption> {
    map k | k in adoptions :: if adoptions[k].animal == a then CompleteIfPending(adoptions[k]) else adoptions[k]
  }

  /** With a single adoption of the animal, completing all of them is completing that one. */
  lemma CompletingTheOnlyAdoption(adoptions: map<AdoptionId, Adoption>, a: AnimalId, d: AdoptionId)
    requires AdoptionsFor(adoptions, a) == {d}
    ensures d in adoptions
    ensures adoptions[d := CompleteIfPending(adoptions[d])] == CompleteAdoptionsOf(adoptions, a)
  {
    assert d in AdoptionsFor(adoptions, a);
    var lhs := adoptions[d := CompleteIfPending(adoptions[d])];
    var rhs := CompleteAdoptionsOf(adoptions, a);
    assert lhs.Keys == rhs.Keys;
    forall k | k in lhs
      ensures lhs[k] == rhs[k]
    {
      if k != d {
        assert k !in AdoptionsFor(adoptions, a);
      }
    }
  }

  /** The animal update by `requester`; `nextId` is the identifier the next new
      adoption receives. The animal's own fields are copied from the patch;
      a requested PENDING files a new pending adoption by the requester; a
      requested ADOPTED files a completed one when the animal has no adoption,
      completes the one it has when that is pending, and fails when there are several. */
  function AnimalUpdate(db: Db, nextId: AdoptionId, id: AnimalId, requester: UserId, patch: AnimalPatch): (r: Step)
    ensures !r.outcome.Ok? ==> r.db == db && r.created.None?
    ensures r.created.Some? ==> r.created == Some(nextId) && r.outcome.Ok?
    ensures r.db.users == db.users
  {
    if id !in db.animals then Step(NotFound, db, None)
    else if !AnimalPatchValid(db.users, patch) then Step(BadRequest(InvalidInput), db, None)
    else
      var animals := db.animals[id := ApplyAnimalPatch(db.animals[id], patch)];
      if patch.status == Some(AnimalStatus.Pending) then
        Step(Ok, Db(db.users, animals, db.adoptions[nextId := Adoption(id, requester, requester, AdoptionStatus.Pending)]), Some(nextId))
      else if patch.status == Some(Adopted) then
        var matches := AdoptionsFor(db.adoptions, id);
        if matches == {} then
          Step(Ok, Db(db.users, animals, db.adoptions[nextId := Adoption(id, requester, requester, Completed)]), Some(nextId))
        else if |matches| == 1 then
          Step(Ok, Db(db.users, animals, CompleteAdoptionsOf(db.adoptions, id)), None)
        else
          Step(ServerError(MultipleObjects), db, None)
      else
        Step(Ok, Db(db.users, animals, db.adoptions), None)
  }

  /** The adoption request by `requester` with identifier `nextId`: the animal
      must be AVAILABLE; the requester becomes the adopter, the animal's
      volunteer the volunteer, and the animal turns PENDING. */
  function AdoptionRequest(db: Db, nextId: AdoptionId, requester: UserId, data: AdoptionInput): (r: Step)
    ensures !r.outcome.Ok? ==> r.db == db && r.created.None?
    ensures r.created.Some? <==> r.outcome.Ok?
    ensures r.created.Some? ==> r.created == Some(nextId)
    ensures r.db.users == db.users
  {
    if data.animal.None? then Step(BadRequest(FieldRequired), db, None)
    else if !AdoptionInputValid(db, data) then Step(BadRequest(InvalidPk), db, None)
    else
      var a := data.animal.value;
      if db.animals[a].status != Available then Step(BadRequest(NotAvailable), db, None)
      else
        Step(Ok, Db(db.users, db.animals[a := db.animals[a].(status := AnimalStatus.Pending)],
                    db.adoptions[nextId := Adoption(a, requester, db.animals[a].volunteer,
                                                    data.status.GetOr(DefaultAdoptionStatus))]),
             Some(nextId))
  }

  /** The adoption update: the adoption takes the patch, and its animal
      becomes ADOPTED on COMPLETED and AVAILABLE on CANCELLED. A patch naming
      an animal fails before anything is saved: the validated animal is an
      object, and looking it up as an integer identifier raises. */
  function AdoptionUpdate(db: Db, id: AdoptionId, patch: AdoptionPatch): (r: Step)
    requires Integral(db)
    ensures !r.outcome.Ok? ==> r.db == db && r.created.None?
    ensures r.created.None? && r.db.users == db.users
  {
    if id !in db.adoptions then Step(NotFound, db, None)
    else if !AdoptionPatchValid(db.users, db.animals, patch) then Step(BadRequest(InvalidPk), db, None)
    else if patch.animal.Some? then Step(ServerError(AnimalIdLookup), db, None)
    else
      var target := db.adoptions[id].animal;
      var animals :=
        if patch.status == Some(Completed) then db.animals[target := db.animals[target].(status := Adopted)]
        else if patch.status == Some(Cancelled) then db.animals[target := db.animals[target].(status := Available)]
        else db.animals;
      Step(Ok, Db(db.users, animals, db.adoptions[id := ApplyAdoptionPatch(db.adoptions[id], patch)]), None)
  }

  /** The status-change action: the requested status must be a declared
      status code; only the animal's status changes. */
  function StatusChange(db: Db, id: AnimalId, newStatus: Option<string>): (r: Step)
    ensures !r.outcome.Ok? ==> r.db == db && r.created.None?
    ensures r.created.None?
    ensures r.db.users == db.users && r.db.adoptions == db.adoptions
  {
    if id !in db.animals then Step(NotFound, db, None)
    else
      var parsed := if newStatus.Some? then ParseAnimalStatus(newStatus.value) else None;
      if parsed.None? then Step(BadRequest(InvalidStatus), db, None)
      else Step(Ok, db.(animals := db.animals[id := db.animals[id].(status := parsed.value)]), None)
  }

  /** The generic destroy of an adoption: the row goes, its animal keeps its status. */
  function DeleteAdoption(db: Db, d: AdoptionId): (r: Db)
    ensures r.users == db.users && r.animals == db.animals
    ensures forall k :: k in r.adoptions <==> k in db.adoptions && k != d
    ensures forall k :: k in r.adoptions ==> r.adoptions[k] == db.adoptions[k]
    ensures Integral(db) ==> Integral(r)
  {
    db.(adoptions := db.adoptions - {d})
  }

  // ---------------------------------------------------------------------------
  // What each transition promises
  // ---------------------------------------------------------------------------

  /** Sign-up succeeds exactly when the username is free, the role is given,
      the status fits and the email is given; it then adds exactly one user
      with the given role, the normalized email and the defaults, and
      otherwise changes nothing. A missing email is a server error. */
  lemma SignUpOutcome(db: Db, nextId: UserId, data: UserInput)
    requires nextId !in db.users
    ensures var r := SignUp(db, nextId, data);
      && (r.outcome.Ok? <==>
            && !UsernameTaken(db.users, data.username)
            && data.role.Some?
            && |data.status.GetOr("ACTIVE")| <= UserStatusMaxLength
            && data.email.Some?)
      && (r.outcome.BadRequest? <==>
            UsernameTaken(db.users, data.username) || data.role.None? || |data.status.GetOr("ACTIVE")| > UserStatusMaxLength)
      && (r.outcome.ServerError? <==> !r.outcome.Ok? && !r.outcome.BadRequest?)
      && (data.role.None? && !UsernameTaken(db.users, data.username) ==> r.outcome == BadRequest(FieldRequired))
      && (!r.outcome.Ok? ==> r.db == db && r.created.None?)
      && (r.outcome.Ok? ==>
            && r.created == Some(nextId)
            && r.db.animals == db.animals && r.db.adoptions == db.adoptions
            && r.db.users.Keys == db.users.Keys + {nextId}
            && |r.db.users| == |db.users| + 1
            && (forall k :: k in db.users ==> r.db.users[k] == db.users[k])
            && r.db.users[nextId].username == data.username
            && r.db.users[nextId].email == NormalizeEmail(data.email.value)
            && r.db.users[nextId].password == data.password
            && r.db.users[nextId].firstName == (if data.firstName.Some? then data.firstName.value else "")
            && r.db.users[nextId].lastName == (if data.lastName.Some? then data.lastName.value else "")
            && r.db.users[nextId].role == data.role.value
            && r.db.users[nextId].status == (if data.status.Some? then data.status.value else "ACTIVE"))
  {
    var r := SignUp(db, nextId, data);
    if r.outcome.Ok? {
      var u := NewUser(data);
      assert r.db.users == db.users[nextId := u];
    }
  }

  /** Registration succeeds exactly for valid input and adds exactly one animal,
      whose volunteer is the requester whatever the payload names and whose
      status defaults to AVAILABLE. */
  lemma RegisterAnimalSetsVolunteer(db: Db, nextId: AnimalId, requester: UserId, data: AnimalInput)
    requires nextId !in db.animals
    ensures var r := RegisterAnimal(db, nextId, requester, data);
      && (r.outcome.Ok? <==> AnimalInputValid(db.users, data))
      && (!r.outcome.Ok? ==> r.db == db && r.created.None?)
      && (r.outcome.Ok? ==>
            && r.created == Some(nextId)
            && r.db.users == db.users && r.db.adoptions == db.adoptions
            && r.db.animals.Keys == db.animals.Keys + {nextId}
            && |r.db.animals| == |db.animals| + 1
            && r.db.animals[nextId].volunteer == requester
            && r.db.animals[nextId].name == data.name
            && r.db.animals[nextId].status == (if data.status.Some? then data.status.value else Available))
  {
  }

  /** How an animal update ends: a missing animal is 404, an invalid patch 400,
      an ambiguous adoption lookup 500, anything else succeeds. A failed update
      changes nothing; a successful one stores the patched animal, sets the
      requested status, and touches no user. */
  lemma AnimalUpdateOutcome(db: Db, nextId: AdoptionId, id: AnimalId, requester: UserId, patch: AnimalPatch)
    ensures var r := AnimalUpdate(db, nextId, id, requester, patch);
      && (r.outcome.NotFound? <==> id !in db.animals)
      && (r.outcome.BadRequest? <==> id in db.animals && !AnimalPatchValid(db.users, patch))
      && (r.outcome.ServerError? <==>
            && id in db.animals && AnimalPatchValid(db.users, patch)
            && patch.status == Some(Adopted) && |AdoptionsFor(db.adoptions, id)| > 1)
      && (!r.outcome.Ok? ==> r.db == db && r.created.None?)
      && (r.outcome.Ok? ==>
            && r.db.users == db.users
            && r.db.animals == db.animals[id := ApplyAnimalPatch(db.animals[id], patch)]
            && (patch.status.Some? ==> r.db.animals[id].status == patch.status.value)
            && (patch.status.None? ==> r.db.animals[id].status == db.animals[id].status))
  {
    if id in db.animals && AnimalPatchValid(db.users, patch) && patch.status == Some(Adopted) {
      var matches := AdoptionsFor(db.adoptions, id);
      if matches != {} && |matches| <= 1 {
        assert |matches| == 1;
      }
    }
  }

  /** An update without a status creates and modifies no adoption. */
  lemma NoStatusNoAdoptionChange(db: Db, nextId: AdoptionId, id: AnimalId, requester: UserId, patch: AnimalPatch)
    requires patch.status.None?
    ensures var r := AnimalUpdate(db, nextId, id, requester, patch);
      r.db.adoptions == db.adoptions && r.created.None? && r.db.users == db.users
  {
  }

  /** Setting an animal PENDING always files one more pending adoption by the
      requester, even when the animal already has adoptions. */
  lemma PendingFilesAdoption(db: Db, nextId: AdoptionId, id: AnimalId, requester: UserId, patch: AnimalPatch)
    requires nextId !in db.adoptions
    requires id in db.animals && AnimalPatchValid(db.users, patch)
    requires patch.status == Some(AnimalStatus.Pending)
    ensures var r := AnimalUpdate(db, nextId, id, requester, patch);
      && r.outcome.Ok? && r.created == Some(nextId)
      && r.db.adoptions == db.adoptions[nextId := Adoption(id, requester, requester, AdoptionStatus.Pending)]
      && |r.db.adoptions| == |db.adoptions| + 1
      && AdoptionsFor(r.db.adoptions, id) == AdoptionsFor(db.adoptions, id) + {nextId}
      && r.db.animals[id].status == AnimalStatus.Pending
  {
    var r := AnimalUpdate(db, nextId, id, requester, patch);
    var before, after := AdoptionsFor(db.adoptions, id), AdoptionsFor(r.db.adoptions, id);
    forall k | k in after
      ensures k in before + {nextId}
    {
      if k != nextId {
        assert k in db.adoptions && db.adoptions[k].animal == id;
      }
    }
    forall k | k in before + {nextId}
      ensures k in after
    {
    }
  }

  /** Marking an animal PENDING twice files two adoptions for it, after which
      marking it ADOPTED fails: the lookup of its one adoption is ambiguous. */
  lemma RepeatedPendingBlocksAdoption(db: Db, nextId: AdoptionId, id: AnimalId, requester: UserId)
    requires id in db.animals && requester in db.users
    requires nextId !in db.adoptions && nextId + 1 !in db.adoptions
    ensures var toPending := AnimalPatch(None, None, None, None, Some(AnimalStatus.Pending), None);
      var r1 := AnimalUpdate(db, nextId, id, requester, toPending);
      var r2 := AnimalUpdate(r1.db, nextId + 1, id, requester, toPending);
      var r3 := AnimalUpdate(r2.db, nextId + 2, id, requester, AnimalPatch(None, None, None, None, Some(Adopted), None));
      r1.outcome.Ok? && r2.outcome.Ok? && r3 == Step(ServerError(MultipleObjects), r2.db, None)
  {
    var toPending := AnimalPatch(None, None, None, None, Some(AnimalStatus.Pending), None);
    var r1 := AnimalUpdate(db, nextId, id, requester, toPending);
    PendingFilesAdoption(db, nextId, id, requester, toPending);
    PendingFilesAdoption(r1.db, nextId + 1, id, requester, toPending);
    var r2 := AnimalUpdate(r1.db, nextId + 1, id, requester, toPending);
    var both := AdoptionsFor(r2.db.adoptions, id);
    assert {nextId, nextId + 1} <= both;
    assert |{nextId, nextId + 1}| == 2;
    SubsetCardinality({nextId, nextId + 1}, both);
  }

  /** Setting an animal ADOPTED when it has no adoption files a completed one by the requester. */
  lemma AdoptedWithoutAdoptionFilesCompleted(db: Db, nextId: AdoptionId, id: AnimalId, requester: UserId, patch: AnimalPatch)
    requires nextId !in db.adoptions
    requires id in db.animals && AnimalPatchValid(db.users, patch)
    requires patch.status == Some(Adopted)
    requires forall k :: k in db.adoptions ==> db.adoptions[k].animal != id
    ensures var r := AnimalUpdate(db, nextId, id, requester, patch);
      && r.outcome.Ok? && r.created == Some(nextId)
      && r.db.adoptions == db.adoptions[nextId := Adoption(id, requester, requester, Completed)]
      && |r.db.adoptions| == |db.adoptions| + 1
      && r.db.animals[id].status == Adopted
  {
    assert AdoptionsFor(db.adoptions, id) == {};
  }

  /** Setting an animal ADOPTED when it has exactly one adoption files nothing:
      that adoption becomes COMPLETED if it was PENDING and is untouched
      otherwise, and every other adoption is untouched. */
  lemma AdoptedCompletesItsAdoption(db: Db, nextId: AdoptionId, id: AnimalId, requester: UserId,
                                    patch: AnimalPatch, d: AdoptionId)
    requires id in db.animals && AnimalPatchValid(db.users, patch)
    requires patch.status == Some(Adopted)
    requires d in db.adoptions && db.adoptions[d].animal == id
    requires forall k :: k in db.adoptions && k != d ==> db.adoptions[k].animal != id
    ensures var r := AnimalUpdate(db, nextId, id, requester, patch);
      && r.outcome.Ok? && r.created.None?
      && r.db.adoptions.Keys == db.adoptions.Keys
      && (forall k :: k in db.adoptions && k != d ==> r.db.adoptions[k] == db.adoptions[k])
      && r.db.adoptions[d].animal == id
      && r.db.adoptions[d].adopter == db.adoptions[d].adopter
      && r.db.adoptions[d].volunteer == db.adoptions[d].volunteer
      && (db.adoptions[d].status == AdoptionStatus.Pending ==> r.db.adoptions[d].status == Completed)
      && (db.adoptions[d].status != AdoptionStatus.Pending ==> r.db.adoptions[d].status == db.adoptions[d].status)
      && r.db.animals[id].status == Adopted
  {
    var matches := AdoptionsFor(db.adoptions, id);
    forall k | k in matches
      ensures k == d
    {
    }
    assert matches == {d};
    CompletingTheOnlyAdoption(db.adoptions, id, d);
  }

  /** An adoption request for an animal that is not AVAILABLE fails with
      "Animal is not available." and changes neither table. */
  lemma RequestForUnavailableAnimal(db: Db, nextId: AdoptionId, requester: UserId, data: AdoptionInput)
    requires AdoptionInputValid(db, data)
    requires db.animals[data.animal.value].status != Available
    ensures AdoptionRequest(db, nextId, requester, data) == Step(BadRequest(NotAvailable), db, None)
  {
  }

  /** A request succeeds exactly for a valid payload naming an AVAILABLE
      animal; a failed request is a 400 that changes nothing. */
  lemma AdoptionRequestOutcome(db: Db, nextId: AdoptionId, requester: UserId, data: AdoptionInput)
    ensures var r := AdoptionRequest(db, nextId, requester, data);
      && (r.outcome.Ok? || r.outcome.BadRequest?)
      && (r.outcome.Ok? <==> AdoptionInputValid(db, data) && db.animals[data.animal.value].status == Available)
      && (!r.outcome.Ok? ==> r.db == db && r.created.None?)
  {
  }

  /** A successful request adds exactly one adoption, whose adopter is the
      requester and whose volunteer is the animal's volunteer whatever the
      payload names, and whose status defaults to PENDING; it sets the animal
      PENDING and changes nothing else. */
  lemma AdoptionRequestFilesOne(db: Db, nextId: AdoptionId, requester: UserId, data: AdoptionInput)
    requires nextId !in db.adoptions
    requires AdoptionInputValid(db, data) && db.animals[data.animal.value].status == Available
    ensures var r := AdoptionRequest(db, nextId, requester, data);
      var a := data.animal.value;
      && r.outcome.Ok? && r.created == Some(nextId)
      && r.db.users == db.users
      && r.db.adoptions.Keys == db.adoptions.Keys + {nextId}
      && |r.db.adoptions| == |db.adoptions| + 1
      && (forall k :: k in db.adoptions ==> r.db.adoptions[k] == db.adoptions[k])
      && r.db.adoptions[nextId].animal == a
      && r.db.adoptions[nextId].adopter == requester
      && r.db.adoptions[nextId].volunteer == db.animals[a].volunteer
      && r.db.adoptions[nextId].status == (if data.status.Some? then data.status.value else AdoptionStatus.Pending)
      && r.db.animals == db.animals[a := db.animals[a].(status := AnimalStatus.Pending)]
  {
    var r := AdoptionRequest(db, nextId, requester, data);
    var a := data.animal.value;
    var x := Adoption(a, requester, db.animals[a].volunteer, data.status.GetOr(DefaultAdoptionStatus));
    assert r.db.adoptions == db.adoptions[nextId := x];
  }

  /** A successful request leaves the animal unavailable to the next request. */
  lemma SecondRequestRefused(db: Db, nextId: AdoptionId, first: UserId, second: UserId,
                             data1: AdoptionInput, data2: AdoptionInput)
    requires AdoptionRequest(db, nextId, first, data1).outcome.Ok?
    requires data2.animal == data1.animal
    ensures var mid := AdoptionRequest(db, nextId, first, data1).db;
      var r := AdoptionRequest(mid, nextId + 1, second, data2);
      && !r.outcome.Ok? && r.db == mid
      && (AdoptionInputValid(mid, data2) ==> r.outcome == BadRequest(NotAvailable))
  {
  }

  /** An adoption update of an existing adoption with a valid patch succeeds:
      the adoption takes the requested status and animal; COMPLETED makes that
      animal ADOPTED, CANCELLED makes it AVAILABLE, and any other or no status
      leaves every animal as it was. No other animal and no other adoption changes. */
  lemma AdoptionUpdateDrivesAnimal(db: Db, id: AdoptionId, patch: AdoptionPatch)
    requires Integral(db)
    requires id in db.adoptions && AdoptionPatchValid(db.users, db.animals, patch)
    requires patch.animal.None?
    ensures var r := AdoptionUpdate(db, id, patch);
      var target := db.adoptions[id].animal;
      && r.outcome.Ok? && r.created.None? && r.db.users == db.users
      && target in r.db.animals
      && r.db.adoptions.Keys == db.adoptions.Keys
      && (forall k :: k in db.adoptions && k != id ==> r.db.adoptions[k] == db.adoptions[k])
      && r.db.adoptions[id].animal == target
      && r.db.adoptions[id].status == (if patch.status.Some? then patch.status.value else db.adoptions[id].status)
      && (patch.status == Some(Completed) ==> r.db.animals[target].status == Adopted)
      && (patch.status == Some(Cancelled) ==> r.db.animals[target].status == Available)
      && (patch.status != Some(Completed) && patch.status != Some(Cancelled) ==> r.db.animals == db.animals)
      && r.db.animals.Keys == db.animals.Keys
      && (forall k :: k in db.animals && k != target ==> r.db.animals[k] == db.animals[k])
      && r.db.animals[target].volunteer == db.animals[target].volunteer
  {
  }

  /** A missing adoption is 404, an invalid patch 400, and a valid patch that
      names an animal 500; none of them changes anything. */
  lemma AdoptionUpdateRefusals(db: Db, id: AdoptionId, patch: AdoptionPatch)
    requires Integral(db)
    ensures var r := AdoptionUpdate(db, id, patch);
      && (r.outcome.NotFound? <==> id !in db.adoptions)
      && (r.outcome.BadRequest? <==> id in db.adoptions && !AdoptionPatchValid(db.users, db.animals, patch))
      && (r.outcome.ServerError? <==>
            id in db.adoptions && AdoptionPatchValid(db.users, db.animals, patch) && patch.animal.Some?)
      && (r.outcome.Ok? <==>
            id in db.adoptions && AdoptionPatchValid(db.users, db.animals, patch) && patch.animal.None?)
      && (!r.outcome.Ok? ==> r.db == db)
  {
  }

  /** Cancelling the adoption of an animal makes it available to a new request. */
  lemma CancelReopensAnimal(db: Db, id: AdoptionId, nextId: AdoptionId, requester: UserId, data: AdoptionInput)
    requires Integral(db)
    requires id in db.adoptions
    requires data.animal == Some(db.adoptions[id].animal)
    requires AdoptionInputValid(db, data)
    ensures var mid := AdoptionUpdate(db, id, AdoptionPatch(None, None, None, Some(Cancelled))).db;
      AdoptionRequest(mid, nextId, requester, data).outcome.Ok?
  {
    var mid := AdoptionUpdate(db, id, AdoptionPatch(None, None, None, Some(Cancelled))).db;
    assert mid.animals[db.adoptions[id].animal].status == Available;
  }

  /** The status-change action accepts exactly the declared codes AVAILABLE,
      ADOPTED and PENDING; anything else is 400 with "invalid status". It never
      touches users or adoptions, a refusal changes nothing, and on success
      the stored code is the requested one and the animal's other fields stay. */
  lemma StatusChangeOutcome(db: Db, id: AnimalId, newStatus: Option<string>)
    ensures var r := StatusChange(db, id, newStatus);
      && r.created.None?
      && r.db.users == db.users && r.db.adoptions == db.adoptions
      && (r.outcome.NotFound? <==> id !in db.animals)
      && (r.outcome.BadRequest? <==>
            id in db.animals && (newStatus.None? || newStatus.value !in ["AVAILABLE", "ADOPTED", "PENDING"]))
      && (r.outcome.BadRequest? ==> r.outcome.message == InvalidStatus)
      && (r.outcome.Ok? || r.outcome.NotFound? || r.outcome.BadRequest?)
      && (!r.outcome.Ok? ==> r.db == db)
      && (r.outcome.Ok? ==>
            && newStatus.Some?
            && r.db.animals.Keys == db.animals.Keys
            && AnimalStatusCode(r.db.animals[id].status) == newStatus.value
            && r.db.animals[id].volunteer == db.animals[id].volunteer
            && r.db.animals[id].name == db.animals[id].name
            && (forall k :: k in db.animals && k != id ==> r.db.animals[k] == db.animals[k]))
  {
    if newStatus.Some? {
      var s := newStatus.value;
      assert ParseAnimalStatus(s).Some? <==> s in ["AVAILABLE", "ADOPTED", "PENDING"];
    }
  }

  // ---------------------------------------------------------------------------
  // Every transition keeps the tables consistent
  // ---------------------------------------------------------------------------

  lemma SignUpConsistent(db: Db, nu: nat, na: nat, nd: nat, data: UserInput)
    requires Consistent(db, nu, na, nd)
    ensures var r := SignUp(db, nu, data);
      Consistent(r.db, Next(nu, r.created), na, nd) && (r.created.Some? ==> r.created.value == nu)
  {
    var r := SignUp(db, nu, data);
    if r.outcome.Ok? {
      var users := r.db.users;
      forall a, b | a in users && b in users && users[a].username == users[b].username
        ensures a == b
      {
      }
    }
  }

  lemma RegisterAnimalConsistent(db: Db, nu: nat, na: nat, nd: nat, requester: UserId, data: AnimalInput)
    requires Consistent(db, nu, na, nd) && requester in db.users
    ensures var r := RegisterAnimal(db, na, requester, data);
      Consistent(r.db, nu, Next(na, r.created), nd) && (r.created.Some? ==> r.created.value == na)
  {
    if AnimalInputValid(db.users, data) {
      PutAnimalKeepsIntegrity(db, na, NewAnimal(requester, data));
    }
  }

  /** A write that keeps the user and animal keys and inserts at most the
      adoption `nd` keeps every identifier below the counters. */
  lemma AdoptionAddedKeysBelow(db: Db, r: Db, nu: nat, na: nat, nd: nat, created: Option<nat>)
    requires KeysBelow(db, nu, na, nd)
    requires r.users.Keys == db.users.Keys && r.animals.Keys == db.animals.Keys
    requires created.None? ==> r.adoptions.Keys == db.adoptions.Keys
    requires created.Some? ==> created.value == nd && r.adoptions.Keys == db.adoptions.Keys + {nd}
    ensures KeysBelow(r, nu, na, Next(nd, created))
  {
    assert forall k :: k in r.users ==> k in db.users.Keys;
    assert forall k :: k in r.animals ==> k in db.animals.Keys;
    assert forall k :: k in r.adoptions ==> k in db.adoptions.Keys || k == nd;
  }

  /** Completing the adoptions of an animal keeps every foreign key and every key. */
  lemma CompletingKeepsIntegrity(db: Db, animals: map<AnimalId, Animal>, a: AnimalId)
    requires Integral(db) && animals.Keys == db.animals.Keys
    requires forall k :: k in animals ==> animals[k].volunteer in db.users
    ensures Integral(Db(db.users, animals, CompleteAdoptionsOf(db.adoptions, a)))
    ensures CompleteAdoptionsOf(db.adoptions, a).Keys == db.adoptions.Keys
  {
  }

  /** The animal update keeps every foreign key and bound, never touches users,
      keeps the set of animals, and adds at most the adoption `nextId`. */
  lemma AnimalUpdateKeepsIntegrity(db: Db, nextId: AdoptionId, id: AnimalId, requester: UserId, patch: AnimalPatch)
    requires Integral(db) && WithinBounds(db) && requester in db.users
    ensures var r := AnimalUpdate(db, nextId, id, requester, patch);
      && Integral(r.db) && WithinBounds(r.db)
      && r.db.users == db.users
      && r.db.animals.Keys == db.animals.Keys
      && (r.created.None? ==> r.db.adoptions.Keys == db.adoptions.Keys)
      && (r.created.Some? ==> r.created.value == nextId && r.db.adoptions.Keys == db.adoptions.Keys + {nextId})
  {
    if id in db.animals && AnimalPatchValid(db.users, patch) {
      var updated := ApplyAnimalPatch(db.animals[id], patch);
      PutAnimalKeepsIntegrity(db, id, updated);
      var mid := db.(animals := db.animals[id := updated]);
      if patch.status == Some(AnimalStatus.Pending) {
        PutAdoptionKeepsIntegrity(mid, nextId, Adoption(id, requester, requester, AdoptionStatus.Pending));
      } else if patch.status == Some(Adopted) && AdoptionsFor(db.adoptions, id) == {} {
        PutAdoptionKeepsIntegrity(mid, nextId, Adoption(id, requester, requester, Completed));
      } else if patch.status == Some(Adopted) && |AdoptionsFor(db.adoptions, id)| == 1 {
        CompletingKeepsIntegrity(db, mid.animals, id);
      }
    }
  }

  lemma AnimalUpdateConsistent(db: Db, nu: nat, na: nat, nd: nat, id: AnimalId, requester: UserId, patch: AnimalPatch)
    requires Consistent(db, nu, na, nd) && requester in db.users
    ensures var r := AnimalUpdate(db, nd, id, requester, patch);
      Consistent(r.db, nu, na, Next(nd, r.created))
  {
    var r := AnimalUpdate(db, nd, id, requester, patch);
    AnimalUpdateKeepsIntegrity(db, nd, id, requester, patch);
    AdoptionAddedKeysBelow(db, r.db, nu, na, nd, r.created);
  }

  lemma AdoptionRequestConsistent(db: Db, nu: nat, na: nat, nd: nat, requester: UserId, data: AdoptionInput)
    requires Consistent(db, nu, na, nd) && requester in db.users
    ensures var r := AdoptionRequest(db, nd, requester, data);
      Consistent(r.db, nu, na, Next(nd, r.created)) && (r.created.Some? ==> r.created.value == nd)
  {
    var r := AdoptionRequest(db, nd, requester, data);
    if r.outcome.Ok? {
      var a := data.animal.value;
      PutAnimalKeepsIntegrity(db, a, db.animals[a].(status := AnimalStatus.Pending));
      var mid := db.(animals := db.animals[a := db.animals[a].(status := AnimalStatus.Pending)]);
      PutAdoptionKeepsIntegrity(mid, nd, Adoption(a, requester, db.animals[a].volunteer,
                                                   data.status.GetOr(DefaultAdoptionStatus)));
    }
  }

  /** The adoption update keeps every foreign key and bound and the key sets of all tables. */
  lemma AdoptionUpdateKeepsIntegrity(db: Db, id: AdoptionId, patch: AdoptionPatch)
    requires Integral(db) && WithinBounds(db)
    ensures var r := AdoptionUpdate(db, id, patch);
      && Integral(r.db) && WithinBounds(r.db) && r.created.None?
      && r.db.users == db.users
      && r.db.animals.Keys == db.animals.Keys
      && r.db.adoptions.Keys == db.adoptions.Keys
  {
    if id in db.adoptions && AdoptionPatchValid(db.users, db.animals, patch) && patch.animal.None? {
      var target := db.adoptions[id].animal;
      var r := AdoptionUpdate(db, id, patch);
      var mid := db.(animals := r.db.animals);
      if patch.status == Some(Completed) {
        PutAnimalKeepsIntegrity(db, target, db.animals[target].(status := Adopted));
      } else if patch.status == Some(Cancelled) {
        PutAnimalKeepsIntegrity(db, target, db.animals[target].(status := Available));
      }
      PutAdoptionKeepsIntegrity(mid, id, ApplyAdoptionPatch(db.adoptions[id], patch));
    }
  }

  lemma AdoptionUpdateConsistent(db: Db, nu: nat, na: nat, nd: nat, id: AdoptionId, patch: AdoptionPatch)
    requires Consistent(db, nu, na, nd)
    ensures Consistent(AdoptionUpdate(db, id, patch).db, nu, na, nd)
  {
    AdoptionUpdateKeepsIntegrity(db, id, patch);
  }

  lemma StatusChangeConsistent(db: Db, nu: nat, na: nat, nd: nat, id: AnimalId, newStatus: Option<string>)
    requires Consistent(db, nu, na, nd)
    ensures Consistent(StatusChange(db, id, newStatus).db, nu, na, nd)
  {
    if id in db.animals && newStatus.Some? && ParseAnimalStatus(newStatus.value).Some? {
      var s := ParseAnimalStatus(newStatus.value).value;
      PutAnimalKeepsIntegrity(db, id, db.animals[id].(status := s));
    }
  }

  lemma DeletionsConsistent(db: Db, nu: nat, na: nat, nd: nat, a: AnimalId, u: UserId, d: AdoptionId)
    requires Consistent(db, nu, na, nd)
    ensures Consistent(DeleteAnimal(db, a), nu, na, nd)
    ensures Consistent(DeleteUser(db, u), nu, na, nd)
    ensures Consistent(DeleteAdoption(db, d), nu, na, nd)
  {
    var r := DeleteUser(db, u);
    assert UsernamesUnique(r.users) by {
      forall x, y | x in r.users && y in r.users && r.users[x].username == r.users[y].username
        ensures x == y
      {
        assert db.users[x].username == db.users[y].username;
      }
    }
  }
}
