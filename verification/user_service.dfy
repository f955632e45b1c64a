/**
  `UserServiceImpl` as pure functions over a `Store`. `Register` and `Update`
  return a `Reply`: the result (a value or the exception thrown) and the store
  after the call. The range search returns a bare `Result`, and `DeleteById`
  returns the store after the call. The password encoder, the `UserMapper.toDto` projection and the
  range query are parameters.
*/
module UserService {
  import opened Wrappers
  import opened Dates
  import opened Dtos
  import opened UserStore

  /** The exceptions the service throws, with their messages. */
  datatype Error =
    | RegistrationError(message: string)
    | EntityNotFound(message: string)
    | IllegalArgument(message: string)

  datatype Reply<T> = Reply(result: Result<T, Error>, store: Store)

  const DuplicateEmailMessage: string := "Unable to complete registration"
  const MissingRoleMessage: string := "Can't find role by name"
  const ReversedRangeMessage: string := "'From' date must be less than 'To' date."

  /** The user `register` builds from the payload before the role is attached. */
  function NewUser(dto: RegistrationRequest, encode: Text -> Text): (u: User)
    ensures u.email == dto.email && u.passwordHash == encode(dto.password)
    ensures u.firstName == dto.firstName && u.lastName == dto.lastName && u.birthDate == dto.birthDate
    ensures u.address == dto.address && u.phone == dto.phone
    ensures u.roles == {}
  {
    User(0, dto.email, encode(dto.password), dto.firstName, dto.lastName,
         dto.birthDate, dto.address, dto.phone, {})
  }

  /**
    `register`: refuse an email already in use, then refuse when the USER
    role cannot be found, and otherwise save the new user with that role.
  */
  function Register<R>(s: Store, roles: RoleTable, encode: Text -> Text, toDto: User -> R,
                       dto: RegistrationRequest): (out: Reply<R>)
    ensures out.result.Failure? ==> out.store == s && out.result.error.RegistrationError?
    ensures out.result.Success? ==> USER in roles && FindByEmail(s, dto.email).None?
    ensures out.result.Success? ==> out.store.users.Keys == s.users.Keys + {s.nextId}
  {
    if FindByEmail(s, dto.email).Some? then
      Reply(Failure(RegistrationError(DuplicateEmailMessage)), s)
    else
      var user := NewUser(dto, encode);
      if USER !in roles then
        Reply(Failure(RegistrationError(MissingRoleMessage)), s)
      else
        var (saved, s') := Insert(s, user.(roles := {roles[USER]}));
        Reply(Success(toDto(saved)), s')
  }

  /**
    `update`: find the user by email, or throw; then overwrite the five
    profile fields and save.
  */
  function Update<R>(s: Store, toDto: User -> R, userEmail: Text, dto: UpdateRequest): (out: Reply<R>)
    ensures out.result.Failure? ==> out.store == s && out.result.error.EntityNotFound?
    ensures out.store.users.Keys == s.users.Keys
    ensures out.store.nextId == s.nextId
  {
    match FindByEmail(s, userEmail)
    case None =>
      Reply(Failure(EntityNotFound("Can't find user by email: " + Show(userEmail))), s)
    case Some(id) =>
      var updated := s.users[id].(firstName := dto.firstName, lastName := dto.lastName,
                                  birthDate := dto.birthDate, address := dto.address,
                                  phone := dto.phone);
      Reply(Success(toDto(updated)), s.(users := s.users[id := updated]))
  }

  /** `stream().map(userMapper::toDto).toList()`. */
  function MapToDto<R>(page: seq<User>, toDto: User -> R): (dtos: seq<R>)
    ensures |dtos| == |page|
    ensures forall i :: 0 <= i < |page| ==> dtos[i] == toDto(page[i])
  {
    if page == [] then [] else [toDto(page[0])] + MapToDto(page[1..], toDto)
  }

  /**
    `findUsersByBirthDateRange`: a range whose start is after its end is
    refused; otherwise the repository's page is projected, in order.
  */
  function FindUsersByBirthDateRange<R>(query: (Date, Date, Pageable) -> seq<User>, toDto: User -> R,
                                        fromDate: Date, toDate: Date, p: Pageable): (r: Result<seq<R>, Error>)
    ensures r.Failure? <==> After(fromDate, toDate)
    ensures r.Failure? ==> r.error == IllegalArgument(ReversedRangeMessage)
    ensures r.Success? ==> |r.value| == |query(fromDate, toDate, p)|
    ensures r.Success? ==> forall i :: 0 <= i < |r.value| ==> r.value[i] == toDto(query(fromDate, toDate, p)[i])
  {
    if After(fromDate, toDate) then Failure(IllegalArgument(ReversedRangeMessage))
    else Success(MapToDto(query(fromDate, toDate, p), toDto))
  }

  /** `deleteById`: remove the user with that id; an unknown id leaves the store as it was. */
  function DeleteById(s: Store, id: int): (s': Store)
    ensures id !in s'.users
    ensures forall k :: k in s.users && k != id ==> k in s'.users && s'.users[k] == s.users[k]
    ensures forall k :: k in s'.users ==> k in s.users
    ensures id !in s.users ==> s' == s
    ensures s'.nextId == s.nextId
  {
    s.(users := s.users - {id})
  }

  // ---------------------------------------------------------------- register

  /** A taken email is refused with the generic message, whether or not the USER role exists, and nothing is saved. */
  lemma RegisterRefusesTakenEmail<R>(s: Store, roles: RoleTable, encode: Text -> Text, toDto: User -> R,
                                     dto: RegistrationRequest)
    requires IdsConsistent(s)
    requires EmailTaken(s, dto.email)
    ensures Register(s, roles, encode, toDto, dto) == Reply(Failure(RegistrationError(DuplicateEmailMessage)), s)
  {
  }

  /** A free email with no USER role to attach is refused and nothing is saved. */
  lemma RegisterRefusesMissingRole<R>(s: Store, roles: RoleTable, encode: Text -> Text, toDto: User -> R,
                                      dto: RegistrationRequest)
    requires IdsConsistent(s)
    requires !EmailTaken(s, dto.email)
    requires USER !in roles
    ensures Register(s, roles, encode, toDto, dto) == Reply(Failure(RegistrationError(MissingRoleMessage)), s)
  {
  }

  /**
    A free email with the USER role available adds exactly one user: a fresh
    id, the payload's fields, the encoded password and the USER role alone.
    Every other user is untouched and the reply is that user's projection.
  */
  lemma RegisterAddsOneUser<R>(s: Store, roles: RoleTable, encode: Text -> Text, toDto: User -> R,
                               dto: RegistrationRequest)
    requires IdsConsistent(s)
    requires !EmailTaken(s, dto.email)
    requires USER in roles
    ensures var out := Register(s, roles, encode, toDto, dto);
      var id := s.nextId;
      && id !in s.users
      && out.store.users.Keys == s.users.Keys + {id}
      && |out.store.users| == |s.users| + 1
      && (forall k :: k in s.users ==> out.store.users[k] == s.users[k])
      && out.store.users[id] == User(id, dto.email, encode(dto.password), dto.firstName, dto.lastName,
                                     dto.birthDate, dto.address, dto.phone, {roles[USER]})
      && out.result == Success(toDto(out.store.users[id]))
  {
  }

  /** Registration keeps ids consistent and emails unique. */
  lemma RegisterPreservesInvariant<R>(s: Store, roles: RoleTable, encode: Text -> Text, toDto: User -> R,
                                      dto: RegistrationRequest)
    requires Invariant(s)
    ensures Invariant(Register(s, roles, encode, toDto, dto).store)
  {
    var out := Register(s, roles, encode, toDto, dto);
    if out.result.Success? {
      assert !EmailTaken(s, dto.email);
    }
  }

  /** Registering the same payload twice: the second attempt is refused and changes nothing. */
  lemma RegisterTwiceRefused<R>(s: Store, roles: RoleTable, encode: Text -> Text, toDto: User -> R,
                                dto: RegistrationRequest)
    requires Invariant(s)
    requires Register(s, roles, encode, toDto, dto).result.Success?
    ensures var s' := Register(s, roles, encode, toDto, dto).store;
      Register(s', roles, encode, toDto, dto) == Reply(Failure(RegistrationError(DuplicateEmailMessage)), s')
  {
    var s' := Register(s, roles, encode, toDto, dto).store;
    RegisterPreservesInvariant(s, roles, encode, toDto, dto);
    assert s'.users[s.nextId].email == dto.email;
    assert EmailTaken(s', dto.email);
  }

  // ------------------------------------------------------------------ update

  /** An email that no user has is refused with EntityNotFound and nothing changes. */
  lemma UpdateRefusesUnknownEmail<R>(s: Store, toDto: User -> R, userEmail: Text, dto: UpdateRequest)
    requires IdsConsistent(s)
    requires !EmailTaken(s, userEmail)
    ensures Update(s, toDto, userEmail, dto)
            == Reply(Failure(EntityNotFound("Can't find user by email: " + Show(userEmail))), s)
  {
  }

  /**
    Updating the user with that email overwrites exactly first name, last
    name, birth date, address and phone; its id, email, password hash and
    roles stay, and every other user is untouched.
  */
  lemma UpdateOverwritesProfileOnly<R>(s: Store, toDto: User -> R, id: int, dto: UpdateRequest)
    requires Invariant(s)
    requires id in s.users
    ensures var out := Update(s, toDto, s.users[id].email, dto);
      var before := s.users[id];
      var after := out.store.users[id];
      && out.store.users.Keys == s.users.Keys
      && after.id == before.id && after.email == before.email
      && after.passwordHash == before.passwordHash && after.roles == before.roles
      && after.firstName == dto.firstName && after.lastName == dto.lastName
      && after.birthDate == dto.birthDate && after.address == dto.address && after.phone == dto.phone
      && (forall k :: k in s.users && k != id ==> out.store.users[k] == s.users[k])
      && out.result == Success(toDto(after))
  {
    FindByEmailFindsTheOwner(s, id);
  }

  /** An update keeps ids consistent and emails unique. */
  lemma UpdatePreservesInvariant<R>(s: Store, toDto: User -> R, userEmail: Text, dto: UpdateRequest)
    requires Invariant(s)
    ensures Invariant(Update(s, toDto, userEmail, dto).store)
  {
    var out := Update(s, toDto, userEmail, dto);
    if out.result.Success? {
      assert forall k :: k in s.users ==> out.store.users[k].email == s.users[k].email;
    }
  }

  // ------------------------------------------------------------------ search

  /** A reversed range is refused whatever the repository would answer: it is never consulted. */
  lemma SearchRefusesReversedRangeBeforeQuery<R>(q1: (Date, Date, Pageable) -> seq<User>,
                                                 q2: (Date, Date, Pageable) -> seq<User>,
                                                 toDto: User -> R, fromDate: Date, toDate: Date, p: Pageable)
    requires After(fromDate, toDate)
    ensures FindUsersByBirthDateRange(q1, toDto, fromDate, toDate, p)
            == FindUsersByBirthDateRange(q2, toDto, fromDate, toDate, p)
            == Failure(IllegalArgument(ReversedRangeMessage))
  {
  }

  /** A one-day range is accepted: the start is not after the end. */
  lemma SearchAcceptsOneDayRange<R>(query: (Date, Date, Pageable) -> seq<User>, toDto: User -> R,
                                    day: Date, p: Pageable)
    ensures FindUsersByBirthDateRange(query, toDto, day, day, p).Success?
  {
  }

  /** The range search answered by the derived query of the store. */
  function SearchStore<R>(s: Store, toDto: User -> R, fromDate: Date, toDate: Date, p: Pageable): Result<seq<R>, Error>
  {
    FindUsersByBirthDateRange((f: Date, t: Date, q: Pageable) => FindAllByBirthDateBetween(s, f, t, q),
                              toDto, fromDate, toDate, p)
  }

  /**
    With the derived query as an inclusive birth date filter, every result
    is the projection of a stored user born within the range.
  */
  lemma SearchReturnsUsersBornInRange<R>(s: Store, toDto: User -> R, fromDate: Date, toDate: Date, p: Pageable)
    requires !After(fromDate, toDate)
    ensures var r := SearchStore(s, toDto, fromDate, toDate, p);
      && r.Success?
      && |r.value| <= p.pageSize
      && forall i :: 0 <= i < |r.value| ==>
           exists u :: u in s.users.Values && r.value[i] == toDto(u) && BornWithin(u, fromDate, toDate)
  {
    var page := FindAllByBirthDateBetween(s, fromDate, toDate, p);
    var dtos := MapToDto(page, toDto);
    assert SearchStore(s, toDto, fromDate, toDate, p) == Success(dtos);
    forall i | 0 <= i < |dtos|
      ensures exists u :: u in s.users.Values && dtos[i] == toDto(u) && BornWithin(u, fromDate, toDate)
    {
      var u := page[i];
      assert dtos[i] == toDto(u);
    }
  }

  /**
    With the derived query, a first page with room for every id handed out
    projects every stored user born within the range.
  */
  lemma SearchFirstPageIsComplete<R>(s: Store, toDto: User -> R, fromDate: Date, toDate: Date, p: Pageable)
    requires !After(fromDate, toDate)
    requires IdsConsistent(s)
    requires p.pageNumber == 0 && p.pageSize >= s.nextId - FirstId
    ensures var r := SearchStore(s, toDto, fromDate, toDate, p);
      && r.Success?
      && forall id :: id in s.users && BornWithin(s.users[id], fromDate, toDate) ==> toDto(s.users[id]) in r.value
  {
    var page := FindAllByBirthDateBetween(s, fromDate, toDate, p);
    var dtos := MapToDto(page, toDto);
    assert SearchStore(s, toDto, fromDate, toDate, p) == Success(dtos);
    forall id | id in s.users && BornWithin(s.users[id], fromDate, toDate)
      ensures toDto(s.users[id]) in dtos
    {
      var k :| 0 <= k < |page| && page[k] == s.users[id];
      assert dtos[k] == toDto(s.users[id]);
    }
  }

  // ------------------------------------------------------------------ delete

  /** Deletion keeps ids consistent and emails unique, and deleting twice is deleting once. */
  lemma DeletePreservesInvariantAndIsIdempotent(s: Store, id: int)
    requires Invariant(s)
    ensures Invariant(DeleteById(s, id))
    ensures DeleteById(DeleteById(s, id), id) == DeleteById(s, id)
  {
  }

  // --------------------------------------------------------------- lifetime

  /** A call of the service that can change the store, with the collaborators it is given. */
  datatype Call =
    | RegisterCall(roles: RoleTable, encode: Text -> Text, registration: RegistrationRequest)
    | UpdateCall(userEmail: Text, update: UpdateRequest)
    | DeleteCall(id: int)

  /** The store after one call; the response projection plays no part in it. */
  function Apply(s: Store, c: Call): Store
  {
    match c
    case RegisterCall(roles, encode, dto) => Register(s, roles, encode, (u: User) => u, dto).store
    case UpdateCall(userEmail, dto) => Update(s, (u: User) => u, userEmail, dto).store
    case DeleteCall(id) => DeleteById(s, id)
  }

  /** The store after a sequence of calls, in order. */
  function Run(s: Store, calls: seq<Call>): Store
    decreases |calls|
  {
    if calls == [] then s else Run(Apply(s, calls[0]), calls[1..])
  }

  /** Every call keeps ids consistent and emails unique, and so does every sequence of calls. */
  lemma {:induction false} RunPreservesInvariant(s: Store, calls: seq<Call>)
    requires Invariant(s)
    ensures Invariant(Run(s, calls))
    decreases |calls|
  {
    if calls != [] {
      match calls[0] {
        case RegisterCall(roles, encode, dto) => RegisterPreservesInvariant(s, roles, encode, (u: User) => u, dto);
        case UpdateCall(userEmail, dto) => UpdatePreservesInvariant(s, (u: User) => u, userEmail, dto);
        case DeleteCall(id) => DeletePreservesInvariantAndIsIdempotent(s, id);
      }
      RunPreservesInvariant(Apply(s, calls[0]), calls[1..]);
    }
  }

  /** Every store the service can reach from the empty store has consistent ids and unique emails. */
  lemma ReachableStoresKeepInvariant(calls: seq<Call>)
    ensures Invariant(Run(EmptyStore(), calls))
  {
    RunPreservesInvariant(EmptyStore(), calls);
  }
}
