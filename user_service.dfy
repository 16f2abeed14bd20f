/** UserServiceImpl: the user operations over the user repository. Lookups are
    functions of the repository's contents; create, update and remove change it. */
module UserServiceImpl {
  import opened Errors
  import opened Models
  import opened Store

  /** The user table behind UserRepository. */
  type UserRepository = Table<User>

  /** The repository's invariant: well formed, every row carries its own id,
      and no two rows share an email (the unique index on User.email). */
  ghost predicate RepositoryValid(t: UserRepository)
  {
    && WellFormed(t)
    && (forall k :: k in t.rows ==> t.rows[k].id == Some(k))
    && (forall a, b :: a in t.rows && b in t.rows && a != b ==> t.rows[a].email != t.rows[b].email)
  }

  /** Every listed user is the stored row at its own id. */
  lemma ListedAreStored(t: UserRepository)
    requires RepositoryValid(t)
    ensures forall u :: u in Listing(t) ==> u.id.Some? && u.id.value in t.rows && t.rows[u.id.value] == u
  {
    forall u | u in Listing(t)
      ensures u.id.Some? && u.id.value in t.rows && t.rows[u.id.value] == u
    {
      var i :| 0 <= i < |Listing(t)| && Listing(t)[i] == u;
      var k := t.order[i];
      assert k in t.rows && u == t.rows[k];
      assert t.rows[k].id == Some(k);
    }
  }

  // The messages the service puts in its status errors.

  const NoResults := "There are no results to show."

  function NoResultsFor(value: string): string
  {
    "There are no results to show with the value: '" + value + "'."
  }

  function NoUserWithId(id: int): string
  {
    "There are no users with the id: '" + LongToString(id) + "'."
  }

  function NoUserWithEmail(email: string): string
  {
    "There are no users with the email: '" + email + "'."
  }

  function EmailNotAvailable(email: string): string
  {
    "The email address '" + email + "' is not available."
  }

  const NoChanges := "There are no changes to make on this user"

  const EmailUnavailable := "this email address is not available"

  /** findAll(page, size): the page of all users, or NOT_FOUND when that page is empty. */
  function FindAll(uRepo: UserRepository, page: nat, size: nat): (r: Result<seq<User>>)
    requires WellFormed(uRepo) && size >= 1
    ensures r.Failure? <==> |Listing(uRepo)| <= page * size
    ensures r.Failure? ==> r.error == StatusError(NotFound, NoResults)
    ensures r.Success? ==> 1 <= |r.value| <= size
    ensures r.Success? ==> forall i :: 0 <= i < |r.value| ==>
              page * size + i < |Listing(uRepo)| && r.value[i] == Listing(uRepo)[page * size + i]
    ensures r.Success? ==> r.value == Page(Listing(uRepo), page, size)
  {
    var users := Page(Listing(uRepo), page, size);
    if users == [] then Failure(StatusError(NotFound, NoResults)) else Success(users)
  }

  /** The users findByNameContainingIgnoreCase matches, in store order; the
      case-insensitive substring test is the parameter containsIgnoreCase. */
  function Matching(uRepo: UserRepository, containsIgnoreCase: (string, string) -> bool, name: string): (r: seq<User>)
    requires WellFormed(uRepo)
    ensures |r| <= |Listing(uRepo)|
    ensures forall i :: 0 <= i < |r| ==> r[i] in Listing(uRepo) && containsIgnoreCase(r[i].name, name)
  {
    Filter(Listing(uRepo), (u: User) => containsIgnoreCase(u.name, name))
  }

  /** Every listed user whose name contains the text is among the matches. */
  lemma MatchingComplete(t: UserRepository, containsIgnoreCase: (string, string) -> bool, name: string)
    requires WellFormed(t)
    ensures forall i :: 0 <= i < |Listing(t)| && containsIgnoreCase(Listing(t)[i].name, name) ==>
              Listing(t)[i] in Matching(t, containsIgnoreCase, name)
  {
    FilterComplete(Listing(t), (x: User) => containsIgnoreCase(x.name, name));
  }

  /** A user stored under a new id comes after every earlier match, and
      only if its name matches. */
  lemma MatchingAfterInsert(t: UserRepository, containsIgnoreCase: (string, string) -> bool, name: string, k: int, u: User)
    requires WellFormed(t) && k !in t.rows
    ensures WellFormed(Put(t, k, u))
    ensures Matching(Put(t, k, u), containsIgnoreCase, name) ==
              Matching(t, containsIgnoreCase, name) + (if containsIgnoreCase(u.name, name) then [u] else [])
  {
    ListingAfterInsert(t, k, u);
    var keep := (u0: User) => containsIgnoreCase(u0.name, name);
    FilterAppend(Listing(t), [u], keep);
    FilterSingle(u, keep);
  }

  /** Every user on a page of matches is listed and matches. */
  lemma PageOfMatching(uRepo: UserRepository, containsIgnoreCase: (string, string) -> bool, name: string, page: nat, size: nat)
    requires WellFormed(uRepo) && size >= 1
    ensures forall i :: 0 <= i < |Page(Matching(uRepo, containsIgnoreCase, name), page, size)| ==>
              var x := Page(Matching(uRepo, containsIgnoreCase, name), page, size)[i];
              x in Listing(uRepo) && containsIgnoreCase(x.name, name)
  {
    var matches := Matching(uRepo, containsIgnoreCase, name);
    var pg := Page(matches, page, size);
    forall i | 0 <= i < |pg|
      ensures pg[i] in Listing(uRepo) && containsIgnoreCase(pg[i].name, name)
    {
      assert pg[i] == matches[page * size + i];
    }
  }

  /** findAllByName(name, page, size): the page of matching users, or NOT_FOUND
      echoing the searched text when that page is empty. */
  function FindAllByName(uRepo: UserRepository, containsIgnoreCase: (string, string) -> bool,
                         name: string, page: nat, size: nat): (r: Result<seq<User>>)
    requires WellFormed(uRepo) && size >= 1 && NotBlank(name)
    ensures r.Failure? <==> |Matching(uRepo, containsIgnoreCase, name)| <= page * size
    ensures r.Failure? ==> r.error == StatusError(NotFound, NoResultsFor(name))
    ensures r.Success? ==> 1 <= |r.value| <= size
    ensures r.Success? ==> forall i :: 0 <= i < |r.value| ==>
              r.value[i] in Listing(uRepo) && containsIgnoreCase(r.value[i].name, name)
    ensures r.Success? ==> r.value == Page(Matching(uRepo, containsIgnoreCase, name), page, size)
  {
    var users := Page(Matching(uRepo, containsIgnoreCase, name), page, size);
    if users == [] then Failure(StatusError(NotFound, NoResultsFor(name)))
    else
      PageOfMatching(uRepo, containsIgnoreCase, name, page, size);
      Success(users)
  }

  /** findById(id): the stored user with that id, or NOT_FOUND naming the id. */
  function FindById(uRepo: UserRepository, id: int): (r: Result<User>)
    requires RepositoryValid(uRepo)
    ensures r.Success? ==> r.value in Listing(uRepo) && r.value.id == Some(id)
    ensures r.Failure? ==> r.error == StatusError(NotFound, NoUserWithId(id))
    ensures r.Failure? ==> forall u :: u in Listing(uRepo) ==> u.id != Some(id)
  {
    ListedAreStored(uRepo);
    if id in uRepo.rows then
      StoredIsListed(uRepo, id);
      Success(uRepo.rows[id])
    else
      Failure(StatusError(NotFound, NoUserWithId(id)))
  }

  /** findByEmail(email): the one user with that email, or NOT_FOUND naming the email. */
  function FindByEmail(uRepo: UserRepository, email: string): (r: Result<User>)
    requires RepositoryValid(uRepo) && NotBlank(email)
    ensures r.Success? ==> r.value in Listing(uRepo) && r.value.email == email
    ensures r.Success? ==> forall k :: k in uRepo.rows && uRepo.rows[k].email == email ==> uRepo.rows[k] == r.value
    ensures r.Failure? ==> r.error == StatusError(NotFound, NoUserWithEmail(email))
    ensures r.Failure? ==> forall k :: k in uRepo.rows ==> uRepo.rows[k].email != email
  {
    ListedAreStored(uRepo);
    match FindFirst(Listing(uRepo), (u: User) => u.email == email)
    case Some(u) =>
      var k0 := u.id.value;
      assert u.email == email && uRepo.rows[k0] == u;
      assert forall k :: k in uRepo.rows && uRepo.rows[k].email == email ==> k == k0;
      Success(u)
    case None =>
      assert forall k :: k in uRepo.rows ==> uRepo.rows[k] in Listing(uRepo) by {
        forall k | k in uRepo.rows ensures uRepo.rows[k] in Listing(uRepo) {
          StoredIsListed(uRepo, k);
        }
      }
      Failure(StatusError(NotFound, NoUserWithEmail(email)))
  }

  /** A row other than the one at slot holds this email, so writing it at slot
      would break the unique index. */
  predicate EmailTaken(t: UserRepository, email: string, slot: int)
  {
    exists k :: k in t.rows && k != slot && t.rows[k].email == email
  }

  /** uRepo.save(u): the unique index rejects it (None, a DataIntegrityViolation)
      when another row has its email; otherwise the user is written at its slot,
      carrying that id. */
  function Save(t: UserRepository, u: User): (r: Option<UserRepository>)
    requires WellFormed(t)
    ensures r.None? <==> EmailTaken(t, u.email, SlotFor(t, u.id))
    ensures r.Some? ==>
              var slot := SlotFor(t, u.id);
              && r.value.rows == t.rows[slot := u.(id := Some(slot))]
              && (slot in t.rows ==> r.value.order == t.order && r.value.nextId == t.nextId)
              && (slot !in t.rows ==> r.value.order == t.order + [slot] && r.value.nextId == t.nextId + 1)
  {
    var slot := SlotFor(t, u.id);
    if EmailTaken(t, u.email, slot) then None else Some(Put(t, slot, u.(id := Some(slot))))
  }

  /** A save that goes through keeps the repository valid: ids stay keys and emails stay unique. */
  lemma SaveKeepsValid(t: UserRepository, u: User)
    requires RepositoryValid(t)
    ensures Save(t, u).None? <==> EmailTaken(t, u.email, SlotFor(t, u.id))
    ensures Save(t, u).Some? ==> RepositoryValid(Save(t, u).value)
  {
    var slot := SlotFor(t, u.id);
    PutWellFormed(t, slot, u.(id := Some(slot)));
  }

  /** Bean validation does not look at the id, so when every stored row and
      the saved user satisfy the constraints, so does every row after the save. */
  lemma SaveKeepsRowsValid(t: UserRepository, u: User, isEmail: string -> bool)
    requires WellFormed(t) && ValidUser(u, isEmail)
    requires forall k :: k in t.rows ==> ValidUser(t.rows[k], isEmail)
    ensures Save(t, u).Some? ==> forall k :: k in Save(t, u).value.rows ==> ValidUser(Save(t, u).value.rows[k], isEmail)
  {
    var slot := SlotFor(t, u.id);
    assert ValidUser(u.(id := Some(slot)), isEmail);
  }

  /** The service object: its repository is the one piece of state it changes. */
  class UserService {
    var uRepo: UserRepository

    ghost predicate Valid()
      reads this
    {
      RepositoryValid(uRepo)
    }

    constructor ()
      ensures Valid() && uRepo == EmptyTable()
    {
      uRepo := EmptyTable();
    }

    /** create(u): saves the user; an email collision fails with BAD_REQUEST and
        changes nothing. The input comes back; a persist gives it the new id in place. */
    method Create(u: User) returns (r: Result<User>)
      requires Valid()
      modifies this
      ensures Valid()
      ensures EmailTaken(old(uRepo), u.email, SlotFor(old(uRepo), u.id)) ==>
                r == Failure(StatusError(BadRequest, EmailNotAvailable(u.email))) && uRepo == old(uRepo)
      ensures !EmailTaken(old(uRepo), u.email, SlotFor(old(uRepo), u.id)) ==>
                var slot := SlotFor(old(uRepo), u.id);
                var stored := u.(id := Some(slot));
                && r == Success(if u.id.None? then stored else u)
                && uRepo == Put(old(uRepo), slot, stored)
                && FindById(uRepo, slot) == Success(stored)
                && (NotBlank(u.email) ==> FindByEmail(uRepo, u.email) == Success(stored))
    {
      var slot := SlotFor(uRepo, u.id);
      var saved := Save(uRepo, u);
      SaveKeepsValid(uRepo, u);
      if saved.None? {
        r := Failure(StatusError(BadRequest, EmailNotAvailable(u.email)));
        return;
      }
      uRepo := saved.value;
      // a persist assigns the generated id to the very object passed in; a merge leaves it as it was
      r := Success(if u.id.None? then u.(id := Some(slot)) else u);
    }

    /** update(id, u): NOT_FOUND for an unknown id; the body's id is replaced by
        id; an unchanged user fails with BAD_REQUEST; an email collision fails
        with BAD_REQUEST; otherwise the row at id is replaced wholesale. */
    method Update(id: int, u: User) returns (r: Result<User>)
      requires Valid()
      modifies this
      ensures Valid()
      ensures r.Failure? ==> uRepo == old(uRepo)
      ensures id !in old(uRepo.rows) ==> r == Failure(StatusError(NotFound, NoUserWithId(id)))
      ensures id in old(uRepo.rows) && u.(id := Some(id)) == old(uRepo.rows[id]) ==>
                r == Failure(StatusError(BadRequest, NoChanges))
      ensures id in old(uRepo.rows) && u.(id := Some(id)) != old(uRepo.rows[id]) && EmailTaken(old(uRepo), u.email, id) ==>
                r == Failure(StatusError(BadRequest, EmailUnavailable))
      ensures id in old(uRepo.rows) && u.(id := Some(id)) != old(uRepo.rows[id]) && !EmailTaken(old(uRepo), u.email, id) ==>
                && r == Success(u.(id := Some(id)))
                && uRepo.rows == old(uRepo.rows)[id := u.(id := Some(id))]
                && uRepo.order == old(uRepo.order) && uRepo.nextId == old(uRepo.nextId)
    {
      var found := FindById(uRepo, id);
      if found.Failure? {
        return Failure(found.error);
      }
      var ogU := found.value;
      var replacement := u.(id := Some(id));
      if UserEquals(replacement, ogU) {
        return Failure(StatusError(BadRequest, NoChanges));
      }
      var saved := Save(uRepo, replacement);
      SaveKeepsValid(uRepo, replacement);
      if saved.None? {
        return Failure(StatusError(BadRequest, EmailUnavailable));
      }
      uRepo := saved.value;
      r := Success(replacement);
    }

    /** remove(id): NOT_FOUND for an unknown id; otherwise the row is deleted
        and its last state returned. */
    method Remove(id: int) returns (r: Result<User>)
      requires Valid()
      modifies this
      ensures Valid()
      ensures id !in old(uRepo.rows) ==> r == Failure(StatusError(NotFound, NoUserWithId(id))) && uRepo == old(uRepo)
      ensures id in old(uRepo.rows) ==>
                && r == Success(old(uRepo.rows[id]))
                && uRepo == Delete(old(uRepo), id)
                && FindById(uRepo, id).Failure?
    {
      var found := FindById(uRepo, id);
      if found.Failure? {
        return Failure(found.error);
      }
      DeleteWellFormed(uRepo, id);
      uRepo := Delete(uRepo, id);
      r := Success(found.value);
    }
  }

  /** Two creates with the same email: the second fails with BAD_REQUEST and
      the first user stays stored and findable by that email. */
  method CreateSameEmailTwice(s: UserService, u: User, v: User) returns (first: Result<User>, second: Result<User>)
    requires s.Valid() && NotBlank(u.email)
    requires u.id.None? && v.id.None? && v.email == u.email
    modifies s
    ensures s.Valid()
    ensures first.Success? ==> second == Failure(StatusError(BadRequest, EmailNotAvailable(u.email)))
    ensures first.Success? ==> FindByEmail(s.uRepo, u.email) == first
  {
    first := s.Create(u);
    second := s.Create(v);
  }

  /** The same update twice: the first may change the row, the second then has
      nothing to change and fails with BAD_REQUEST. */
  method UpdateTwice(s: UserService, id: int, u: User) returns (first: Result<User>, second: Result<User>)
    requires s.Valid()
    modifies s
    ensures first.Success? ==> second == Failure(StatusError(BadRequest, NoChanges))
  {
    first := s.Update(id, u);
    second := s.Update(id, u);
  }
}
