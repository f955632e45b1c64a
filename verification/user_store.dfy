/**
  The persisted state: users keyed by id with an identity counter, the role
  reference table, and the repository queries the service uses.
*/
module UserStore {
  import opened Wrappers
  import opened Dates

  datatype RoleName = USER | ADMIN

  datatype Role = Role(id: int, roleName: RoleName)

  /** `RoleRepository.findRoleByRoleName`: a partial table of reference data. */
  type RoleTable = map<RoleName, Role>

  datatype User = User(
    id: int,
    email: Text,
    passwordHash: Text,
    firstName: Text,
    lastName: Text,
    birthDate: Option<Date>,
    address: Text,
    phone: Text,
    roles: set<Role>)

  /** The paging request of a query: page index and page size (sorting is not modelled). */
  datatype Pageable = Pageable(pageNumber: nat, pageSize: nat)

  /**
    The user table. Ids are handed out by an identity counter: the next
    inserted user gets `nextId`.
  */
  datatype Store = Store(users: map<int, User>, nextId: int)

  const FirstId: int := 1

  function EmptyStore(): (s: Store)
    ensures Invariant(s)
  {
    Store(map[], FirstId)
  }

  /** Every stored user sits under its own id, and every id is one the counter has handed out. */
  predicate IdsConsistent(s: Store)
  {
    && FirstId <= s.nextId
    && forall id :: id in s.users ==> FirstId <= id < s.nextId && s.users[id].id == id
  }

  /** No two stored users share an email. */
  predicate UniqueEmails(s: Store)
  {
    forall a, b :: a in s.users && b in s.users && s.users[a].email == s.users[b].email ==> a == b
  }

  predicate Invariant(s: Store)
  {
    IdsConsistent(s) && UniqueEmails(s)
  }

  /** Some stored user has this email. */
  predicate EmailTaken(s: Store, email: Text)
  {
    exists id :: id in s.users && s.users[id].email == email
  }

  /** The lowest id in `[i, bound)` of a user with this email. */
  function FindIdByEmailFrom(users: map<int, User>, email: Text, i: int, bound: int): (r: Option<int>)
    decreases bound - i
    ensures r.Some? ==> i <= r.value < bound && r.value in users && users[r.value].email == email
    ensures r.Some? ==> forall j :: i <= j < r.value && j in users ==> users[j].email != email
    ensures r.None? ==> forall j :: i <= j < bound && j in users ==> users[j].email != email
  {
    if i >= bound then None
    else if i in users && users[i].email == email then Some(i)
    else FindIdByEmailFrom(users, email, i + 1, bound)
  }

  /**
    `UserRepository.findByEmail`, answering with the id of the match. When
    several users share the email, the lowest id is chosen.
  */
  function FindByEmail(s: Store, email: Text): (r: Option<int>)
    ensures r.Some? ==> r.value in s.users && s.users[r.value].email == email
    ensures IdsConsistent(s) ==> (r.Some? <==> EmailTaken(s, email))
  {
    FindIdByEmailFrom(s.users, email, FirstId, s.nextId)
  }

  /** Under the invariant, the email lookup finds the one user with that email. */
  lemma FindByEmailFindsTheOwner(s: Store, id: int)
    requires Invariant(s)
    requires id in s.users
    ensures FindByEmail(s, s.users[id].email) == Some(id)
  {
    assert EmailTaken(s, s.users[id].email);
  }

  /** `save` of a new entity: the store assigns the next id. */
  function Insert(s: Store, u: User): (r: (User, Store))
    ensures r.0 == u.(id := s.nextId)
    ensures s.nextId in r.1.users && r.1.users[s.nextId] == r.0
    ensures r.1.nextId == s.nextId + 1
    ensures s.nextId !in s.users && IdsConsistent(s) ==> |r.1.users| == |s.users| + 1
    ensures r.1.users.Keys == s.users.Keys + {s.nextId}
    ensures forall id :: id in s.users && id != s.nextId ==> r.1.users[id] == s.users[id]
  {
    var saved := u.(id := s.nextId);
    (saved, Store(s.users[s.nextId := saved], s.nextId + 1))
  }

  /** The user has a birth date within `[from, to]`, both ends included. */
  predicate BornWithin(u: User, from: Date, to: Date)
  {
    u.birthDate.Some? && !Before(u.birthDate.value, from) && !After(u.birthDate.value, to)
  }

  /** Users whose birth date lies in `[from, to]`, in id order, scanning `[i, bound)`. */
  function BornBetweenFrom(users: map<int, User>, from: Date, to: Date, i: int, bound: int): (r: seq<User>)
    decreases bound - i
    ensures |r| <= if i < bound then bound - i else 0
    ensures forall k :: 0 <= k < |r| ==> r[k] in users.Values && BornWithin(r[k], from, to)
    ensures forall j :: i <= j < bound && j in users && BornWithin(users[j], from, to) ==> users[j] in r
  {
    if i >= bound then []
    else if i in users && BornWithin(users[i], from, to)
    then [users[i]] + BornBetweenFrom(users, from, to, i + 1, bound)
    else BornBetweenFrom(users, from, to, i + 1, bound)
  }

  /**
    `UserRepository.findAllByBirthDateBetween`, a derived query whose body
    the program does not show: an inclusive filter on the birth date, in id
    order, of which the requested page is returned.
  */
  function FindAllByBirthDateBetween(s: Store, from: Date, to: Date, p: Pageable): (page: seq<User>)
    ensures |page| <= p.pageSize
    ensures forall k :: 0 <= k < |page| ==> page[k] in s.users.Values && BornWithin(page[k], from, to)
    ensures IdsConsistent(s) && p.pageNumber == 0 && p.pageSize >= s.nextId - FirstId ==>
              forall id :: id in s.users && BornWithin(s.users[id], from, to) ==> s.users[id] in page
  {
    var all := BornBetweenFrom(s.users, from, to, FirstId, s.nextId);
    var lo := if p.pageNumber * p.pageSize <= |all| then p.pageNumber * p.pageSize else |all|;
    var hi := if lo + p.pageSize <= |all| then lo + p.pageSize else |all|;
    all[lo..hi]
  }
}
