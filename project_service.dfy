/** ProjectServiceImpl: the project operations over the project repository,
    with users looked up through the user service. */
module ProjectServiceImpl {
  import opened Errors
  import opened Models
  import opened Store
  import UserServiceImpl

  /** The project table behind ProjectRepository. */
  type ProjectRepository = Table<Project>

  /** The repository's invariant: well formed, every row carries its own id,
      and no two rows share a name (the unique index on Project.name). */
  ghost predicate RepositoryValid(t: ProjectRepository)
  {
    && WellFormed(t)
    && (forall k :: k in t.rows ==> t.rows[k].id == Some(k))
    && (forall a, b :: a in t.rows && b in t.rows && a != b ==> t.rows[a].name != t.rows[b].name)
  }

  /** Every listed project is the stored row at its own id. */
  lemma ListedAreStored(t: ProjectRepository)
    requires RepositoryValid(t)
    ensures forall p :: p in Listing(t) ==> p.id.Some? && p.id.value in t.rows && t.rows[p.id.value] == p
  {
    forall p | p in Listing(t)
      ensures p.id.Some? && p.id.value in t.rows && t.rows[p.id.value] == p
    {
      var i :| 0 <= i < |Listing(t)| && Listing(t)[i] == p;
      var k := t.order[i];
      assert k in t.rows && p == t.rows[k];
      assert t.rows[k].id == Some(k);
    }
  }

  // The messages the service puts in its status errors.

  const NoResults := "There are no results to show."

  function NoResultsFor(value: string): string
  {
    "There are no results to show with the value: '" + value + "'."
  }

  function NoProjectWithId(id: int): string
  {
    "There are no projects with the id: '" + LongToString(id) + "'."
  }

  function NameNotAvailable(name: string): string
  {
    "The project name '" + name + "' is not available."
  }

  const NoChanges := "There are no changes to make on this project"

  const AlreadyAssigned := "The selected user is already assigned to this project."

  /** findAll(page, size): the page of all projects, or NOT_FOUND when that page is empty. */
  function FindAll(pRepo: ProjectRepository, page: nat, size: nat): (r: Result<seq<Project>>)
    requires WellFormed(pRepo) && size >= 1
    ensures r.Failure? <==> |Listing(pRepo)| <= page * size
    ensures r.Failure? ==> r.error == StatusError(NotFound, NoResults)
    ensures r.Success? ==> 1 <= |r.value| <= size
    ensures r.Success? ==> forall i :: 0 <= i < |r.value| ==>
              page * size + i < |Listing(pRepo)| && r.value[i] == Listing(pRepo)[page * size + i]
    ensures r.Success? ==> r.value == Page(Listing(pRepo), page, size)
  {
    var projects := Page(Listing(pRepo), page, size);
    if projects == [] then Failure(StatusError(NotFound, NoResults)) else Success(projects)
  }

  /** The projects findByNameContainingIgnoreCase matches, in store order; the
      case-insensitive substring test is the parameter containsIgnoreCase. */
  function Matching(pRepo: ProjectRepository, containsIgnoreCase: (string, string) -> bool, name: string): (r: seq<Project>)
    requires WellFormed(pRepo)
    ensures |r| <= |Listing(pRepo)|
    ensures forall i :: 0 <= i < |r| ==> r[i] in Listing(pRepo) && containsIgnoreCase(r[i].name, name)
  {
    Filter(Listing(pRepo), (p: Project) => containsIgnoreCase(p.name, name))
  }

  /** Every listed project whose name contains the text is among the matches. */
  lemma MatchingComplete(t: ProjectRepository, containsIgnoreCase: (string, string) -> bool, name: string)
    requires WellFormed(t)
    ensures forall i :: 0 <= i < |Listing(t)| && containsIgnoreCase(Listing(t)[i].name, name) ==>
              Listing(t)[i] in Matching(t, containsIgnoreCase, name)
  {
    FilterComplete(Listing(t), (x: Project) => containsIgnoreCase(x.name, name));
  }

  /** A project stored under a new id comes after every earlier match, and
      only if its name matches. */
  lemma MatchingAfterInsert(t: ProjectRepository, containsIgnoreCase: (string, string) -> bool, name: string, k: int, p: Project)
    requires WellFormed(t) && k !in t.rows
    ensures WellFormed(Put(t, k, p))
    ensures Matching(Put(t, k, p), containsIgnoreCase, name) ==
              Matching(t, containsIgnoreCase, name) + (if containsIgnoreCase(p.name, name) then [p] else [])
  {
    ListingAfterInsert(t, k, p);
    var keep := (p0: Project) => containsIgnoreCase(p0.name, name);
    FilterAppend(Listing(t), [p], keep);
    FilterSingle(p, keep);
  }

  /** Every project on a page of matches is listed and matches. */
  lemma PageOfMatching(pRepo: ProjectRepository, containsIgnoreCase: (string, string) -> bool, name: string, page: nat, size: nat)
    requires WellFormed(pRepo) && size >= 1
    ensures forall i :: 0 <= i < |Page(Matching(pRepo, containsIgnoreCase, name), page, size)| ==>
              var x := Page(Matching(pRepo, containsIgnoreCase, name), page, size)[i];
              x in Listing(pRepo) && containsIgnoreCase(x.name, name)
  {
    var matches := Matching(pRepo, containsIgnoreCase, name);
    var pg := Page(matches, page, size);
    forall i | 0 <= i < |pg|
      ensures pg[i] in Listing(pRepo) && containsIgnoreCase(pg[i].name, name)
    {
      assert pg[i] == matches[page * size + i];
    }
  }

  /** findAllByName(name, page, size): the page of matching projects, or
      NOT_FOUND echoing the searched text when that page is empty. */
  function FindAllByName(pRepo: ProjectRepository, containsIgnoreCase: (string, string) -> bool,
                         name: string, page: nat, size: nat): (r: Result<seq<Project>>)
    requires WellFormed(pRepo) && size >= 1 && NotBlank(name)
    ensures r.Failure? <==> |Matching(pRepo, containsIgnoreCase, name)| <= page * size
    ensures r.Failure? ==> r.error == StatusError(NotFound, NoResultsFor(name))
    ensures r.Success? ==> 1 <= |r.value| <= size
    ensures r.Success? ==> forall i :: 0 <= i < |r.value| ==>
              r.value[i] in Listing(pRepo) && containsIgnoreCase(r.value[i].name, name)
    ensures r.Success? ==> r.value == Page(Matching(pRepo, containsIgnoreCase, name), page, size)
  {
    var projects := Page(Matching(pRepo, containsIgnoreCase, name), page, size);
    if projects == [] then Failure(StatusError(NotFound, NoResultsFor(name)))
    else
      PageOfMatching(pRepo, containsIgnoreCase, name, page, size);
      Success(projects)
  }

  /** findById(id): the stored project with that id, or NOT_FOUND naming the id. */
  function FindById(pRepo: ProjectRepository, id: int): (r: Result<Project>)
    requires RepositoryValid(pRepo)
    ensures r.Success? ==> r.value in Listing(pRepo) && r.value.id == Some(id)
    ensures r.Failure? ==> r.error == StatusError(NotFound, NoProjectWithId(id))
    ensures r.Failure? ==> forall p :: p in Listing(pRepo) ==> p.id != Some(id)
  {
    ListedAreStored(pRepo);
    if id in pRepo.rows then
      StoredIsListed(pRepo, id);
      Success(pRepo.rows[id])
    else
      Failure(StatusError(NotFound, NoProjectWithId(id)))
  }

  /** A row other than the one at slot holds this name, so writing it at slot
      would break the unique index. */
  predicate NameTaken(t: ProjectRepository, name: string, slot: int)
  {
    exists k :: k in t.rows && k != slot && t.rows[k].name == name
  }

  /** pRepo.save(p): the unique index rejects it (None, a DataIntegrityViolation)
      when another row has its name; otherwise the project is written at its
      slot, carrying that id. */
  function Save(t: ProjectRepository, p: Project): (r: Option<ProjectRepository>)
    requires WellFormed(t)
    ensures r.None? <==> NameTaken(t, p.name, SlotFor(t, p.id))
    ensures r.Some? ==>
              var slot := SlotFor(t, p.id);
              && r.value.rows == t.rows[slot := p.(id := Some(slot))]
              && (slot in t.rows ==> r.value.order == t.order && r.value.nextId == t.nextId)
              && (slot !in t.rows ==> r.value.order == t.order + [slot] && r.value.nextId == t.nextId + 1)
  {
    var slot := SlotFor(t, p.id);
    if NameTaken(t, p.name, slot) then None else Some(Put(t, slot, p.(id := Some(slot))))
  }

  /** A save that goes through keeps the repository valid: ids stay keys and names stay unique. */
  lemma SaveKeepsValid(t: ProjectRepository, p: Project)
    requires RepositoryValid(t)
    ensures Save(t, p).None? <==> NameTaken(t, p.name, SlotFor(t, p.id))
    ensures Save(t, p).Some? ==> RepositoryValid(Save(t, p).value)
  {
    var slot := SlotFor(t, p.id);
    PutWellFormed(t, slot, p.(id := Some(slot)));
  }

  /** Bean validation does not look at the id, so when every stored row and
      the saved project satisfy the constraints, so does every row after the save. */
  lemma SaveKeepsRowsValid(t: ProjectRepository, p: Project)
    requires WellFormed(t) && ValidProject(p)
    requires forall k :: k in t.rows ==> ValidProject(t.rows[k])
    ensures Save(t, p).Some? ==> forall k :: k in Save(t, p).value.rows ==> ValidProject(Save(t, p).value.rows[k])
  {
    var slot := SlotFor(t, p.id);
    assert ValidProject(p.(id := Some(slot)));
  }

  /** Rewriting a stored project under its own id and its own name never breaks
      the unique index: the save of an assignment cannot fail. */
  lemma SaveSameNameSucceeds(t: ProjectRepository, id: int, p: Project)
    requires RepositoryValid(t) && id in t.rows
    requires p.id == Some(id) && p.name == t.rows[id].name
    ensures Save(t, p) == Some(Put(t, id, p))
  {
    assert SlotFor(t, p.id) == id;
  }

  /** The membership check of assignUser: CONFLICT when the user is already
      in the project's list (List.contains over User.equals); otherwise the
      project with the user appended at the end. */
  function AssignTo(p: Project, u: User): (r: Result<Project>)
    ensures r.Failure? <==> u in p.users
    ensures r.Failure? ==> r.error == StatusError(Conflict, AlreadyAssigned)
    ensures r.Success? ==> r.value == p.(users := p.users + [u])
    ensures r.Success? ==> u in r.value.users && |r.value.users| == |p.users| + 1
    ensures r.Success? && Distinct(p.users) ==> Distinct(r.value.users)
  {
    if Contains(p.users, u) then
      Failure(StatusError(Conflict, AlreadyAssigned))
    else
      Success(p.(users := p.users + [u]))
  }

  /** Appending a user to a stored project and saving it rewrites that row
      alone: the save cannot fail and the repository stays valid. */
  lemma AssignmentSaved(t: ProjectRepository, pId: int, u: User)
    requires RepositoryValid(t) && pId in t.rows
    ensures var p := t.rows[pId].(users := t.rows[pId].users + [u]);
            && Save(t, p) == Some(Put(t, pId, p))
            && RepositoryValid(Put(t, pId, p))
            && Put(t, pId, p).rows == t.rows[pId := p]
            && Put(t, pId, p).order == t.order && Put(t, pId, p).nextId == t.nextId
  {
    var p := t.rows[pId].(users := t.rows[pId].users + [u]);
    SaveSameNameSucceeds(t, pId, p);
    SaveKeepsValid(t, p);
  }

  /** The service object: its repository is the state it changes; it reads
      users through the user service. */
  class ProjectService {
    var pRepo: ProjectRepository
    const uSrv: UserServiceImpl.UserService

    ghost predicate Valid()
      reads this, uSrv
    {
      RepositoryValid(pRepo) && uSrv.Valid()
    }

    constructor (uSrv: UserServiceImpl.UserService)
      requires uSrv.Valid()
      ensures Valid() && pRepo == EmptyTable() && this.uSrv == uSrv
    {
      pRepo := EmptyTable();
      this.uSrv := uSrv;
    }

    /** create(p): saves the project; a name collision fails with BAD_REQUEST
        and changes nothing. The input comes back; a persist gives it the new id in place. */
    method Create(p: Project) returns (r: Result<Project>)
      requires Valid()
      modifies this
      ensures Valid()
      ensures NameTaken(old(pRepo), p.name, SlotFor(old(pRepo), p.id)) ==>
                r == Failure(StatusError(BadRequest, NameNotAvailable(p.name))) && pRepo == old(pRepo)
      ensures !NameTaken(old(pRepo), p.name, SlotFor(old(pRepo), p.id)) ==>
                var slot := SlotFor(old(pRepo), p.id);
                var stored := p.(id := Some(slot));
                && r == Success(if p.id.None? then stored else p)
                && pRepo == Put(old(pRepo), slot, stored)
                && FindById(pRepo, slot) == Success(stored)
    {
      var slot := SlotFor(pRepo, p.id);
      var saved := Save(pRepo, p);
      SaveKeepsValid(pRepo, p);
      if saved.None? {
        r := Failure(StatusError(BadRequest, NameNotAvailable(p.name)));
        return;
      }
      pRepo := saved.value;
      // a persist assigns the generated id to the very object passed in; a merge leaves it as it was
      r := Success(if p.id.None? then p.(id := Some(slot)) else p);
    }

    /** update(id, p): NOT_FOUND for an unknown id; the body's id is replaced by
        id; an unchanged project fails with BAD_REQUEST; otherwise the row at id
        is replaced wholesale, users included. A name collision at the save is
        not translated: the store's integrity violation escapes. */
    method Update(id: int, p: Project) returns (r: Result<Project>)
      requires Valid()
      modifies this
      ensures Valid()
      ensures r.Failure? ==> pRepo == old(pRepo)
      ensures id !in old(pRepo.rows) ==> r == Failure(StatusError(NotFound, NoProjectWithId(id)))
      ensures id in old(pRepo.rows) && p.(id := Some(id)) == old(pRepo.rows[id]) ==>
                r == Failure(StatusError(BadRequest, NoChanges))
      ensures id in old(pRepo.rows) && p.(id := Some(id)) != old(pRepo.rows[id]) && NameTaken(old(pRepo), p.name, id) ==>
                r == Failure(IntegrityViolation)
      ensures id in old(pRepo.rows) && p.(id := Some(id)) != old(pRepo.rows[id]) && !NameTaken(old(pRepo), p.name, id) ==>
                && r == Success(p.(id := Some(id)))
                && pRepo.rows == old(pRepo.rows)[id := p.(id := Some(id))]
                && pRepo.order == old(pRepo.order) && pRepo.nextId == old(pRepo.nextId)
    {
      var found := FindById(pRepo, id);
      if found.Failure? {
        return Failure(found.error);
      }
      var ogP := found.value;
      var replacement := p.(id := Some(id));
      if ProjectEquals(replacement, ogP) {
        return Failure(StatusError(BadRequest, NoChanges));
      }
      var saved := Save(pRepo, replacement);
      SaveKeepsValid(pRepo, replacement);
      if saved.None? {
        return Failure(IntegrityViolation);
      }
      pRepo := saved.value;
      r := Success(replacement);
    }

    /** assignUser(pId, email): NOT_FOUND for an unknown project (checked
        first), then NOT_FOUND for an unknown email; then the membership check
        of AssignTo decides, and an accepted assignment is saved. */
    method AssignUser(pId: int, email: string) returns (r: Result<Project>)
      requires Valid() && NotBlank(email)
      modifies this
      ensures Valid()
      ensures r != Failure(IntegrityViolation)
      ensures r.Failure? ==> pRepo == old(pRepo)
      ensures pId !in old(pRepo.rows) ==> r == Failure(StatusError(NotFound, NoProjectWithId(pId)))
      ensures pId in old(pRepo.rows) && UserServiceImpl.FindByEmail(uSrv.uRepo, email).Failure? ==>
                r == Failure(StatusError(NotFound, UserServiceImpl.NoUserWithEmail(email)))
      ensures pId in old(pRepo.rows) && UserServiceImpl.FindByEmail(uSrv.uRepo, email).Success? ==>
                r == AssignTo(old(pRepo.rows[pId]), UserServiceImpl.FindByEmail(uSrv.uRepo, email).value)
      ensures r.Success? ==>
                && pRepo.rows == old(pRepo.rows)[pId := r.value]
                && pRepo.order == old(pRepo.order) && pRepo.nextId == old(pRepo.nextId)
    {
      var found := FindById(pRepo, pId);
      if found.Failure? {
        return Failure(found.error);
      }
      var p := found.value;
      assert p == pRepo.rows[pId];
      var byEmail := UserServiceImpl.FindByEmail(uSrv.uRepo, email);
      if byEmail.Failure? {
        return Failure(byEmail.error);
      }
      var u := byEmail.value;
      r := AssignTo(p, u);
      if r.Failure? {
        return;
      }
      AssignmentSaved(pRepo, pId, u);
      pRepo := Save(pRepo, r.value).value;
    }

    /** remove(id): NOT_FOUND for an unknown id; otherwise the row is deleted
        and its last state returned. */
    method Remove(id: int) returns (r: Result<Project>)
      requires Valid()
      modifies this
      ensures Valid()
      ensures id !in old(pRepo.rows) ==> r == Failure(StatusError(NotFound, NoProjectWithId(id))) && pRepo == old(pRepo)
      ensures id in old(pRepo.rows) ==>
                && r == Success(old(pRepo.rows[id]))
                && pRepo == Delete(old(pRepo), id)
                && FindById(pRepo, id).Failure?
    {
      var found := FindById(pRepo, id);
      if found.Failure? {
        return Failure(found.error);
      }
      DeleteWellFormed(pRepo, id);
      pRepo := Delete(pRepo, id);
      r := Success(found.value);
    }
  }

  /** The same assignment twice: if the first adds the user, the second fails
      with CONFLICT and leaves the list as the first left it. */
  method AssignUserTwice(s: ProjectService, pId: int, email: string) returns (first: Result<Project>, second: Result<Project>)
    requires s.Valid() && NotBlank(email)
    modifies s
    ensures first.Success? ==> second == Failure(StatusError(Conflict, AlreadyAssigned))
    ensures first.Success? ==> pId in s.pRepo.rows && s.pRepo.rows[pId] == first.value
  {
    ghost var before := s.pRepo;
    ghost var byEmail := UserServiceImpl.FindByEmail(s.uSrv.uRepo, email);
    first := s.AssignUser(pId, email);
    second := s.AssignUser(pId, email);
    if first.Success? {
      assert pId in before.rows && byEmail.Success?;
      assert first == AssignTo(before.rows[pId], byEmail.value);
      assert second == AssignTo(first.value, byEmail.value);
    }
  }

  /** Two creates with the same name: the second fails with BAD_REQUEST and
      the first project stays stored. */
  method CreateSameNameTwice(s: ProjectService, p: Project, q: Project) returns (first: Result<Project>, second: Result<Project>)
    requires s.Valid()
    requires p.id.None? && q.id.None? && q.name == p.name
    modifies s
    ensures first.Success? ==> second == Failure(StatusError(BadRequest, NameNotAvailable(p.name)))
    ensures first.Success? ==> first.value in s.pRepo.rows.Values
  {
    first := s.Create(p);
    second := s.Create(q);
  }

  /** The same update twice: the first may change the row, the second then has
      nothing to change and fails with BAD_REQUEST. The body's members are the
      current user rows, as the stored project's members are when it is loaded. */
  method UpdateTwice(s: ProjectService, id: int, p: Project) returns (first: Result<Project>, second: Result<Project>)
    requires s.Valid()
    requires forall i :: 0 <= i < |p.users| ==>
               && p.users[i].id.Some? && p.users[i].id.value in s.uSrv.uRepo.rows
               && s.uSrv.uRepo.rows[p.users[i].id.value] == p.users[i]
    modifies s
    ensures first.Success? ==> second == Failure(StatusError(BadRequest, NoChanges))
  {
    first := s.Update(id, p);
    second := s.Update(id, p);
  }
}
