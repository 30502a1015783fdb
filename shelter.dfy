/** The shelter's tables as an object updated in place. Each request handler
    mutates the tables step by step and is proved to end in exactly the state
    and outcome its transition in module Workflow describes, keeping the
    tables consistent. Permission checks happen before a handler runs and are
    stated in module Access. */
module Tables {
  import opened Outcomes
  import opened Models
  import opened Workflow

  class Shelter {
    var users: map<UserId, User>
    var animals: map<AnimalId, Animal>
    var adoptions: map<AdoptionId, Adoption>
    var nextUser: nat
    var nextAnimal: nat
    var nextAdoption: nat

    function State(): Db
      reads this
    {
      Db(users, animals, adoptions)
    }

    /** The tables and the identifier counters are consistent. */
    predicate Valid()
      reads this
    {
      Consistent(State(), nextUser, nextAnimal, nextAdoption)
    }

    constructor ()
      ensures Valid()
      ensures users == map[] && animals == map[] && adoptions == map[]
      ensures nextUser == 0 && nextAnimal == 0 && nextAdoption == 0
    {
      users, animals, adoptions := map[], map[], map[];
      nextUser, nextAnimal, nextAdoption := 0, 0, 0;
    }

    /** Sign-up: validates the payload and stores the user with its defaults
        under the next user identifier. */
    method CreateUser(data: UserInput) returns (outcome: Outcome, created: Option<UserId>)
      requires Valid()
      modifies this
      ensures Valid()
      ensures Step(outcome, State(), created) == SignUp(old(State()), old(nextUser), data)
      ensures nextUser == Next(old(nextUser), created)
      ensures nextAnimal == old(nextAnimal) && nextAdoption == old(nextAdoption)
    {
      var db := State();
      SignUpConsistent(db, nextUser, nextAnimal, nextAdoption, data);
      created := None;
      if UsernameTaken(users, data.username) {
        outcome := BadRequest(UsernameExists);
        return;
      }
      if data.role.None? {
        outcome := BadRequest(FieldRequired);
        return;
      }
      if |data.status.GetOr(DefaultUserStatus)| > UserStatusMaxLength {
        outcome := BadRequest(StatusTooLong);
        return;
      }
      if data.email.None? {
        outcome := ServerError(MissingEmail);
        return;
      }
      users := users[nextUser := NewUser(data)];
      created := Some(nextUser);
      nextUser := nextUser + 1;
      outcome := Ok;
    }

    /** Registers an animal under the next animal identifier; the requester
        becomes its volunteer. */
    method CreateAnimal(requester: UserId, data: AnimalInput) returns (outcome: Outcome, created: Option<AnimalId>)
      requires Valid() && requester in users
      modifies this
      ensures Valid()
      ensures Step(outcome, State(), created) == RegisterAnimal(old(State()), old(nextAnimal), requester, data)
      ensures nextAnimal == Next(old(nextAnimal), created)
      ensures nextUser == old(nextUser) && nextAdoption == old(nextAdoption)
    {
      var db := State();
      RegisterAnimalConsistent(db, nextUser, nextAnimal, nextAdoption, requester, data);
      created := None;
      if !AnimalInputValid(users, data) {
        outcome := BadRequest(InvalidInput);
        return;
      }
      animals := animals[nextAnimal := NewAnimal(requester, data)];
      created := Some(nextAnimal);
      nextAnimal := nextAnimal + 1;
      outcome := Ok;
    }

    /** Updates an animal, filing or completing adoptions as its new status demands. */
    method UpdateAnimal(id: AnimalId, requester: UserId, patch: AnimalPatch)
      returns (outcome: Outcome, created: Option<AdoptionId>)
      requires Valid() && requester in users
      modifies this
      ensures Valid()
      ensures Step(outcome, State(), created) == AnimalUpdate(old(State()), old(nextAdoption), id, requester, patch)
      ensures nextAdoption == Next(old(nextAdoption), created)
      ensures nextUser == old(nextUser) && nextAnimal == old(nextAnimal)
    {
      var db := State();
      created := None;
      if id !in db.animals {
        outcome := NotFound;
        return;
      }
      if !AnimalPatchValid(db.users, patch) {
        outcome := BadRequest(InvalidInput);
        return;
      }
      var rows := db.adoptions;
      if patch.status == Some(AnimalStatus.Pending) {
        rows := rows[nextAdoption := Adoption(id, requester, requester, AdoptionStatus.Pending)];
        created := Some(nextAdoption);
      } else if patch.status == Some(Adopted) {
        var matches := AdoptionsFor(rows, id);
        if matches == {} {
          rows := rows[nextAdoption := Adoption(id, requester, requester, Completed)];
          created := Some(nextAdoption);
        } else if |matches| == 1 {
          var d :| d in matches;
          SingletonSet(matches, d);
          CompletingTheOnlyAdoption(rows, id, d);
          rows := rows[d := CompleteIfPending(rows[d])];
        } else {
          outcome := ServerError(MultipleObjects);
          return;
        }
      }
      var herd := db.animals[id := ApplyAnimalPatch(db.animals[id], patch)];
      ghost var r := AnimalUpdate(db, nextAdoption, id, requester, patch);
      AnimalUpdateConsistent(db, nextUser, nextAnimal, nextAdoption, id, requester, patch);
      assert Db(db.users, herd, rows) == r.db && created == r.created;
      animals, adoptions := herd, rows;
      nextAdoption := Next(nextAdoption, created);
      outcome := Ok;
    }

    /** Files an adoption request under the next adoption identifier. */
    method CreateAdoption(requester: UserId, data: AdoptionInput) returns (outcome: Outcome, created: Option<AdoptionId>)
      requires Valid() && requester in users
      modifies this
      ensures Valid()
      ensures Step(outcome, State(), created) == AdoptionRequest(old(State()), old(nextAdoption), requester, data)
      ensures nextAdoption == Next(old(nextAdoption), created)
      ensures nextUser == old(nextUser) && nextAnimal == old(nextAnimal)
    {
      var db := State();
      AdoptionRequestConsistent(db, nextUser, nextAnimal, nextAdoption, requester, data);
      created := None;
      if data.animal.None? {
        outcome := BadRequest(FieldRequired);
        return;
      }
      if !AdoptionInputValid(db, data) {
        outcome := BadRequest(InvalidPk);
        return;
      }
      var a := data.animal.value;
      var animal := db.animals[a];
      if animal.status != Available {
        outcome := BadRequest(NotAvailable);
        return;
      }
      var adoption := Adoption(a, requester, animal.volunteer, data.status.GetOr(DefaultAdoptionStatus));
      animal := animal.(status := AnimalStatus.Pending);
      animals := animals[a := animal];
      adoptions := adoptions[nextAdoption := adoption];
      created := Some(nextAdoption);
      nextAdoption := nextAdoption + 1;
      outcome := Ok;
    }

    /** Updates an adoption; its new status drives the status of its animal. */
    method UpdateAdoption(id: AdoptionId, patch: AdoptionPatch) returns (outcome: Outcome)
      requires Valid()
      modifies this
      ensures Valid()
      ensures Step(outcome, State(), None) == AdoptionUpdate(old(State()), id, patch)
      ensures nextUser == old(nextUser) && nextAnimal == old(nextAnimal) && nextAdoption == old(nextAdoption)
    {
      var db := State();
      AdoptionUpdateConsistent(db, nextUser, nextAnimal, nextAdoption, id, patch);
      ghost var r := AdoptionUpdate(db, id, patch);
      if id !in db.adoptions {
        outcome := NotFound;
        assert r == Step(outcome, db, None);
        return;
      }
      if !AdoptionPatchValid(db.users, db.animals, patch) {
        outcome := BadRequest(InvalidPk);
        assert r == Step(outcome, db, None);
        return;
      }
      if patch.animal.Some? {
        outcome := ServerError(AnimalIdLookup);
        assert r == Step(outcome, db, None);
        return;
      }
      var herd := db.animals;
      var target := db.adoptions[id].animal;
      if patch.status == Some(Completed) {
        herd := herd[target := herd[target].(status := Adopted)];
      } else if patch.status == Some(Cancelled) {
        herd := herd[target := herd[target].(status := Available)];
      }
      var rows := db.adoptions[id := ApplyAdoptionPatch(db.adoptions[id], patch)];
      assert Db(db.users, herd, rows) == r.db;
      animals, adoptions := herd, rows;
      outcome := Ok;
    }

    /** The status-change action on one animal. */
    method ChangeStatus(id: AnimalId, newStatus: Option<string>) returns (outcome: Outcome)
      requires Valid()
      modifies this
      ensures Valid()
      ensures Step(outcome, State(), None) == StatusChange(old(State()), id, newStatus)
      ensures nextUser == old(nextUser) && nextAnimal == old(nextAnimal) && nextAdoption == old(nextAdoption)
    {
      StatusChangeConsistent(State(), nextUser, nextAnimal, nextAdoption, id, newStatus);
      if id !in animals {
        outcome := NotFound;
        return;
      }
      if newStatus.None? || ParseAnimalStatus(newStatus.value).None? {
        outcome := BadRequest(InvalidStatus);
        return;
      }
      var s := ParseAnimalStatus(newStatus.value).value;
      animals := animals[id := animals[id].(status := s)];
      outcome := Ok;
    }

    /** Deletes an animal with its adoptions. */
    method DestroyAnimal(id: AnimalId) returns (outcome: Outcome)
      requires Valid()
      modifies this
      ensures Valid()
      ensures outcome.Ok? || outcome.NotFound?
      ensures outcome.NotFound? <==> id !in old(animals)
      ensures outcome.Ok? ==> State() == DeleteAnimal(old(State()), id)
      ensures outcome.NotFound? ==> State() == old(State())
      ensures nextUser == old(nextUser) && nextAnimal == old(nextAnimal) && nextAdoption == old(nextAdoption)
    {
      if id !in animals {
        outcome := NotFound;
        return;
      }
      DeletionsConsistent(State(), nextUser, nextAnimal, nextAdoption, id, 0, 0);
      var r := DeleteAnimal(State(), id);
      users, animals, adoptions := r.users, r.animals, r.adoptions;
      outcome := Ok;
    }

    /** Deletes a user with their animals and every adoption referencing them. */
    method DestroyUser(id: UserId) returns (outcome: Outcome)
      requires Valid()
      modifies this
      ensures Valid()
      ensures outcome.Ok? || outcome.NotFound?
      ensures outcome.NotFound? <==> id !in old(users)
      ensures outcome.Ok? ==> State() == DeleteUser(old(State()), id)
      ensures outcome.NotFound? ==> State() == old(State())
      ensures nextUser == old(nextUser) && nextAnimal == old(nextAnimal) && nextAdoption == old(nextAdoption)
    {
      if id !in users {
        outcome := NotFound;
        return;
      }
      DeletionsConsistent(State(), nextUser, nextAnimal, nextAdoption, 0, id, 0);
      var r := DeleteUser(State(), id);
      users, animals, adoptions := r.users, r.animals, r.adoptions;
      outcome := Ok;
    }

    /** Deletes one adoption; its animal keeps its status. */
    method DestroyAdoption(id: AdoptionId) returns (outcome: Outcome)
      requires Valid()
      modifies this
      ensures Valid()
      ensures outcome.Ok? || outcome.NotFound?
      ensures outcome.NotFound? <==> id !in old(adoptions)
      ensures outcome.Ok? ==> State() == DeleteAdoption(old(State()), id)
      ensures outcome.NotFound? ==> State() == old(State())
      ensures nextUser == old(nextUser) && nextAnimal == old(nextAnimal) && nextAdoption == old(nextAdoption)
    {
      if id !in adoptions {
        outcome := NotFound;
        return;
      }
      DeletionsConsistent(State(), nextUser, nextAnimal, nextAdoption, 0, 0, id);
      adoptions := adoptions - {id};
      outcome := Ok;
    }
  }

  // ---------------------------------------------------------------------------
  // Request sequences
  // ---------------------------------------------------------------------------

  /** A volunteer registers a cat and an adopter asks for it: the request
      succeeds, the cat becomes PENDING and exactly one adoption exists. */
  method AdoptionRequestScenario() returns (outcome: Outcome, catStatus: AnimalStatus, adoptionCount: nat)
    ensures outcome.Ok? && catStatus == AnimalStatus.Pending && adoptionCount == 1
  {
    var shelter := new Shelter();
    var o1, volunteer := shelter.CreateUser(
      UserInput("volunteer", Some("volunteer@example.com"), "pass123", None, None, Some(Volunteer), None));
    assert volunteer == Some(0) && shelter.users.Keys == {0} && shelter.users[0].username == "volunteer";
    var o2, adopter := shelter.CreateUser(
      UserInput("adopter", Some("adopter@example.com"), "pass123", None, None, Some(Adopter), None));
    assert "volunteer" != "adopter";
    assert adopter == Some(1) && 0 in shelter.users && 1 in shelter.users;
    var o3, cat := shelter.CreateAnimal(0, AnimalInput("Fluffy", 2, "Persian", Cat, Some(Available), None));
    assert cat == Some(0) && shelter.adoptions == map[];
    assert shelter.animals[0].status == Available;
    var created;
    outcome, created := shelter.CreateAdoption(1, AdoptionInput(cat, None, None, None));
    catStatus := shelter.animals[0].status;
    adoptionCount := |shelter.adoptions|;
  }
}
