/** The shelter's schema: choice enumerations, field defaults, length bounds,
    the three tables and their foreign keys with cascading deletion. */
module Models {
  import opened Outcomes

  type UserId = nat
  type AnimalId = nat
  type AdoptionId = nat

  // ---------------------------------------------------------------------------
  // Choice enumerations and their stored codes
  // ---------------------------------------------------------------------------

  datatype Role = Admin | Volunteer | Adopter
  datatype AnimalType = Dog | Cat
  datatype AnimalStatus = Available | Adopted | Pending
  datatype AdoptionStatus = Pending | Completed | Cancelled

  const RoleMaxLength := 10
  const UserStatusMaxLength := 20
  const NameMaxLength := 100
  const BreedMaxLength := 100
  const AnimalTypeMaxLength := 3
  const StatusMaxLength := 10

  const DefaultUserStatus := "ACTIVE"
  const DefaultAnimalStatus := AnimalStatus.Available
  const DefaultAdoptionStatus := AdoptionStatus.Pending

  /** The code stored in the `role` column; every code fits the column. */
  function RoleCode(r: Role): (code: string)
    ensures 0 < |code| <= RoleMaxLength
  {
    match r
    case Admin => "ADMIN"
    case Volunteer => "VOLUNTEER"
    case Adopter => "ADOPTER"
  }

  function AnimalTypeCode(t: AnimalType): (code: string)
    ensures 0 < |code| <= AnimalTypeMaxLength
  {
    match t
    case Dog => "DOG"
    case Cat => "CAT"
  }

  function AnimalStatusCode(s: AnimalStatus): (code: string)
    ensures 0 < |code| <= StatusMaxLength
  {
    match s
    case Available => "AVAILABLE"
    case Adopted => "ADOPTED"
    case Pending => "PENDING"
  }

  function AdoptionStatusCode(s: AdoptionStatus): (code: string)
    ensures 0 < |code| <= StatusMaxLength
  {
    match s
    case Pending => "PENDING"
    case Completed => "COMPLETED"
    case Cancelled => "CANCELLED"
  }

  /** Choice validation of a role: accepts exactly the codes of the enumeration. */
  function ParseRole(code: string): (r: Option<Role>)
    ensures r.Some? ==> RoleCode(r.value) == code
    ensures r.None? ==> forall x: Role :: RoleCode(x) != code
  {
    if code == "ADMIN" then Some(Admin)
    else if code == "VOLUNTEER" then Some(Volunteer)
    else if code == "ADOPTER" then Some(Adopter)
    else None
  }

  function ParseAnimalType(code: string): (t: Option<AnimalType>)
    ensures t.Some? ==> AnimalTypeCode(t.value) == code
    ensures t.None? ==> forall x: AnimalType :: AnimalTypeCode(x) != code
  {
    if code == "DOG" then Some(Dog)
    else if code == "CAT" then Some(Cat)
    else None
  }

  /** Membership in the keys of the animal status choices. */
  function ParseAnimalStatus(code: string): (s: Option<AnimalStatus>)
    ensures s.Some? ==> AnimalStatusCode(s.value) == code
    ensures s.None? ==> forall x: AnimalStatus :: AnimalStatusCode(x) != code
  {
    if code == "AVAILABLE" then Some(Available)
    else if code == "ADOPTED" then Some(Adopted)
    else if code == "PENDING" then Some(AnimalStatus.Pending)
    else None
  }

  function ParseAdoptionStatus(code: string): (s: Option<AdoptionStatus>)
    ensures s.Some? ==> AdoptionStatusCode(s.value) == code
    ensures s.None? ==> forall x: AdoptionStatus :: AdoptionStatusCode(x) != code
  {
    if code == "PENDING" then Some(AdoptionStatus.Pending)
    else if code == "COMPLETED" then Some(Completed)
    else if code == "CANCELLED" then Some(Cancelled)
    else None
  }

  /** Every enumeration value survives being stored as its code and read back. */
  lemma CodesRoundTrip(r: Role, t: AnimalType, s: AnimalStatus, d: AdoptionStatus)
    ensures ParseRole(RoleCode(r)) == Some(r)
    ensures ParseAnimalType(AnimalTypeCode(t)) == Some(t)
    ensures ParseAnimalStatus(AnimalStatusCode(s)) == Some(s)
    ensures ParseAdoptionStatus(AdoptionStatusCode(d)) == Some(d)
  {
  }

  // ---------------------------------------------------------------------------
  // Records and tables
  // ---------------------------------------------------------------------------

  /** A row of the user table; `password` is what the store keeps for the credential. */
  datatype User = User(username: string, email: string, password: string,
                       firstName: string, lastName: string, role: Role, status: string)

  datatype Animal = Animal(name: string, age: int, breed: string, animalType: AnimalType,
                           status: AnimalStatus, volunteer: UserId)

  datatype Adoption = Adoption(animal: AnimalId, adopter: UserId, volunteer: UserId,
                               status: AdoptionStatus)

  datatype Db = Db(users: map<UserId, User>, animals: map<AnimalId, Animal>,
                   adoptions: map<AdoptionId, Adoption>)

  /** The character columns of a user fit their declared lengths. */
  predicate UserFits(u: User) {
    |u.status| <= UserStatusMaxLength
  }

  /** The character columns of an animal fit their declared lengths. */
  predicate AnimalFits(a: Animal) {
    |a.name| <= NameMaxLength && |a.breed| <= BreedMaxLength
  }

  /** Every foreign key points at an existing row. */
  predicate Integral(db: Db) {
    && (forall a :: a in db.animals ==> db.animals[a].volunteer in db.users)
    && (forall d :: d in db.adoptions ==>
          && db.adoptions[d].animal in db.animals
          && db.adoptions[d].adopter in db.users
          && db.adoptions[d].volunteer in db.users)
  }

  predicate WithinBounds(db: Db) {
    && (forall u :: u in db.users ==> UserFits(db.users[u]))
    && (forall a :: a in db.animals ==> AnimalFits(db.animals[a]))
  }

  /** No two users share a username. */
  predicate UsernamesUnique(users: map<UserId, User>) {
    forall a, b :: a in users && b in users && users[a].username == users[b].username ==> a == b
  }

  predicate UsernameTaken(users: map<UserId, User>, name: string) {
    exists k :: k in users && users[k].username == name
  }

  /** Every identifier in use is below the next one the database hands out. */
  predicate KeysBelow(db: Db, nextUser: nat, nextAnimal: nat, nextAdoption: nat) {
    && (forall k :: k in db.users ==> k < nextUser)
    && (forall k :: k in db.animals ==> k < nextAnimal)
    && (forall k :: k in db.adoptions ==> k < nextAdoption)
  }

  /** Foreign keys resolve, columns fit, usernames are unique, and identifiers
      in use are below the counters. */
  predicate Consistent(db: Db, nextUser: nat, nextAnimal: nat, nextAdoption: nat) {
    Integral(db) && WithinBounds(db) && UsernamesUnique(db.users) && KeysBelow(db, nextUser, nextAnimal, nextAdoption)
  }

  /** The adoptions whose animal is `a`. */
  function AdoptionsFor(adoptions: map<AdoptionId, Adoption>, a: AnimalId): set<AdoptionId> {
    set d | d in adoptions && adoptions[d].animal == a
  }

  /** Whether adoption `x` references user `u`, directly or through its animal. */
  predicate AdoptionTouchesUser(db: Db, x: Adoption, u: UserId) {
    x.adopter == u || x.volunteer == u ||
    (x.animal in db.animals && db.animals[x.animal].volunteer == u)
  }

  // ---------------------------------------------------------------------------
  // Single-row writes that keep the foreign keys and bounds
  // ---------------------------------------------------------------------------

  lemma PutAdoptionKeepsIntegrity(db: Db, d: AdoptionId, x: Adoption)
    requires Integral(db) && WithinBounds(db)
    requires x.animal in db.animals && x.adopter in db.users && x.volunteer in db.users
    ensures Integral(db.(adoptions := db.adoptions[d := x]))
    ensures WithinBounds(db.(adoptions := db.adoptions[d := x]))
  {
  }

  lemma PutAnimalKeepsIntegrity(db: Db, a: AnimalId, x: Animal)
    requires Integral(db) && WithinBounds(db)
    requires x.volunteer in db.users && AnimalFits(x)
    ensures Integral(db.(animals := db.animals[a := x]))
    ensures WithinBounds(db.(animals := db.animals[a := x]))
  {
  }

  // ---------------------------------------------------------------------------
  // Cascading deletion
  // ---------------------------------------------------------------------------

  /** Deleting an animal deletes the adoptions that reference it, and nothing else. */
  function DeleteAnimal(db: Db, a: AnimalId): (r: Db)
    ensures a !in r.animals && r.users == db.users
    ensures forall x :: x in r.animals <==> x in db.animals && x != a
    ensures forall x :: x in r.animals ==> r.animals[x] == db.animals[x]
    ensures forall d :: d in r.adoptions <==> d in db.adoptions && db.adoptions[d].animal != a
    ensures forall d :: d in r.adoptions ==> r.adoptions[d] == db.adoptions[d]
    ensures Integral(db) ==> Integral(r)
    ensures WithinBounds(db) ==> WithinBounds(r)
  {
    Db(db.users,
       map x | x in db.animals && x != a :: db.animals[x],
       map d | d in db.adoptions && db.adoptions[d].animal != a :: db.adoptions[d])
  }

  /** Deleting a user deletes the animals they registered and every adoption
      that references them as adopter, as volunteer, or through a deleted animal. */
  function DeleteUser(db: Db, u: UserId): (r: Db)
    ensures forall x :: x in r.users <==> x in db.users && x != u
    ensures forall x :: x in r.users ==> r.users[x] == db.users[x]
    ensures forall x :: x in r.animals <==> x in db.animals && db.animals[x].volunteer != u
    ensures forall x :: x in r.animals ==> r.animals[x] == db.animals[x]
    ensures forall d :: d in r.adoptions <==>
              d in db.adoptions && !AdoptionTouchesUser(db, db.adoptions[d], u)
    ensures forall d :: d in r.adoptions ==> r.adoptions[d] == db.adoptions[d]
    ensures Integral(db) ==> Integral(r)
    ensures WithinBounds(db) ==> WithinBounds(r)
  {
    Db(map x | x in db.users && x != u :: db.users[x],
       map x | x in db.animals && db.animals[x].volunteer != u :: db.animals[x],
       map d | d in db.adoptions && !AdoptionTouchesUser(db, db.adoptions[d], u) :: db.adoptions[d])
  }

  /** After deleting a user nothing references them any more. */
  lemma DeleteUserLeavesNoReference(db: Db, u: UserId)
    requires Integral(db)
    ensures var r := DeleteUser(db, u);
      && u !in r.users
      && (forall a :: a in r.animals ==> r.animals[a].volunteer != u)
      && (forall d :: d in r.adoptions ==>
            r.adoptions[d].adopter != u && r.adoptions[d].volunteer != u)
  {
  }
}
