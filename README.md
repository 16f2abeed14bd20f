# Project and user management: a Dafny model of the service layer

This project models the service layer of a Spring Boot REST back end. The back end manages two
tables, users and projects, and lets a user be assigned to a project. The model covers:

- `UserServiceImpl`: list users by page, search them by name, look one up by id or by email,
  and create, update and remove users;
- `ProjectServiceImpl`: the same operations for projects, plus `assignUser`, which adds a user
  (looked up by email) to a project's member list;
- the `User` and `Project` entities: Lombok's field-by-field `equals`, their validation
  constraints and their unique indexes (user email, project name);
- `ResponseHandler`: it turns a service's `ResponseStatusException`s and validation failures into
  JSON responses.

## Modules

- **Errors** (`errors.dfy`): `Option`, the HTTP statuses the system uses, `HttpStatus.resolve`, and
  the outcome of a service call (`Result`). A call either succeeds or throws one of two errors:
  - a `ResponseStatusException` with a status and a reason;
  - a `DataIntegrityViolationException`, which the service left untranslated.
- **Models** (`models.dfy`): the `User` and `Project` values, the `@NotBlank` constraint, the
  generated `equals` and `List.contains`, and `Long.toString`, which the messages use for ids.
- **Store** (`store.dfy`): an in-memory stand-in for the JPA repositories.
  - A `Table` holds:
    - rows keyed by id;
    - the store order in which queries enumerate rows;
    - the next generated id.
  - The operations on it are:
    - paging, as `PageRequest.of(page, size)` does: the slice `[page*size, min((page+1)*size, n))`;
    - filtering and first-match search;
    - `save` with JPA's persist-or-merge behaviour;
    - `delete`.
- **UserServiceImpl** (`user_service.dfy`) and **ProjectServiceImpl** (`project_service.dfy`):
  - The read operations are functions of the repository's contents.
  - The writing operations are methods of a service class whose repository field they update.
  - Each service states the invariant its repository keeps: every row is stored under its own id,
    and the unique key is unique. Every write is proved to keep it.
  - Scenario methods chain two calls on one service. They prove that a second create with the same
    email or name fails with BAD_REQUEST, that repeating a successful update fails because nothing
    is left to change (for a project, when the body's members are the current user rows), and that
    repeating a successful assignment fails with CONFLICT.
- **ResponseHandler** (`response_handler.dfy`): the response builders. The two validation handlers
  fold their error lists into a map in a loop.

Saving follows the persistence provider:
- An entity without an id is persisted under a newly generated id, and the object passed in
  receives that id.
- An entity whose id is stored replaces that row.
- An entity whose id is not stored is modelled as inserted under a newly generated id.
- A save that would give a second row the same email (users) or name (projects) is rejected, as
  the unique index does.

`UserServiceImpl.update` translates that rejection into `400 BAD_REQUEST`. `ProjectServiceImpl.update`
does not, so the model lets the integrity violation escape from it.

## Model

| member | source | states |
|---|---|---|
| Errors.Resolve | src/main/java/com/Xogito/Assignment/Utilities/ResponseHandler.java:52 | a resolved status carries exactly the numeric code asked for; only codes that no status of the system has fail to resolve |
| Errors.ResolveCode | src/main/java/com/Xogito/Assignment/Utilities/ResponseHandler.java:52 | resolving a status's own code gives that status back |
| Models.Trim | src/main/java/com/Xogito/Assignment/Models/User.java:31 | String.trim as @NotBlank uses it: no longer than the input, empty exactly when every character is at or below U+0020, and otherwise starting and ending with a character above U+0020 |
| Models.TrimStart | src/main/java/com/Xogito/Assignment/Models/User.java:31 | the leading-trimmed text is the suffix left after dropping only characters at or below U+0020; it is empty exactly when every character is at or below U+0020, and otherwise starts with a character above it |
| Models.TrimEnd | src/main/java/com/Xogito/Assignment/Models/User.java:31 | the trailing-trimmed text is the prefix left after dropping only characters at or below U+0020; it keeps a visible first character, and ends with a character above U+0020 |
| Models.NotBlank | src/main/java/com/Xogito/Assignment/Models/Project.java:39 | @NotBlank: some character of the text lies above U+0020 |
| Models.NotBlankIsTrimmedNonEmpty | src/main/java/com/Xogito/Assignment/Models/User.java:31 | a text has a character above U+0020 exactly when it is not empty once trimmed, which is how the validator checks @NotBlank |
| Models.ValidUser | src/main/java/com/Xogito/Assignment/Models/User.java:31-36 | the bean-validation constraints of a user: a non-blank name and an email that passes the @Email check |
| Models.ValidProject | src/main/java/com/Xogito/Assignment/Models/Project.java:39-41 | the bean-validation constraint of a project: a non-blank name |
| Models.UserEquals | src/main/java/com/Xogito/Assignment/Models/User.java:22-36 | the generated User.equals holds exactly when id, name and email all agree |
| Models.UsersEqual | src/main/java/com/Xogito/Assignment/Models/Project.java:46-48 | two user lists are equal exactly when they have the same length and pairwise equal users |
| Models.ProjectEquals | src/main/java/com/Xogito/Assignment/Models/Project.java:28-48 | the generated Project.equals holds exactly when id, name, description and the ordered user lists agree |
| Models.Contains | src/main/java/com/Xogito/Assignment/Implementations/ProjectServiceImpl.java:154 | List.contains over User.equals holds exactly when the user occurs in the list |
| Models.Decimal | src/main/java/com/Xogito/Assignment/Implementations/ProjectServiceImpl.java:90 | the decimal text of a non-negative id is non-empty and made only of digits; it is "0" for zero and otherwise has no leading zero |
| Models.LongToString | src/main/java/com/Xogito/Assignment/Implementations/ProjectServiceImpl.java:90 | an id's text is non-empty; it starts with '-' exactly when the id is negative, and every other character is a digit |
| Models.DecimalRoundTrip | src/main/java/com/Xogito/Assignment/Implementations/UserServiceImpl.java:81 | reading the decimal digits back gives the id again |
| Models.LongToStringInjective | src/main/java/com/Xogito/Assignment/Implementations/UserServiceImpl.java:80-81 | different ids have different texts, so a not-found message names exactly one id |
| Store.Listing | src/main/java/com/Xogito/Assignment/Implementations/ProjectServiceImpl.java:45 | the listing has one entry per id in the store order: the row stored at that id |
| Store.StoredIsListed | src/main/java/com/Xogito/Assignment/Implementations/UserServiceImpl.java:79 | every stored row appears in the listing |
| Store.Put | src/main/java/com/Xogito/Assignment/Implementations/UserServiceImpl.java:111 | a write stores the value at its id and leaves every other row as it was; an existing id keeps its place in the order, a new id is appended and moves the next id past it |
| Store.Delete | src/main/java/com/Xogito/Assignment/Implementations/UserServiceImpl.java:157 | a delete removes exactly that id, leaves every other row unchanged, keeps every other id in the order and keeps the next id |
| Store.DeleteKeepsOrder | src/main/java/com/Xogito/Assignment/Implementations/UserServiceImpl.java:157 | deleting a stored id cuts it out of the store order, and the other ids keep their relative order |
| Store.FilterKeepsAll | src/main/java/com/Xogito/Assignment/Implementations/UserServiceImpl.java:61 | filtering a list whose every element matches gives the list back |
| Store.FilterDropsOne | src/main/java/com/Xogito/Assignment/Implementations/UserServiceImpl.java:157 | filtering out the one element that does not match leaves the elements around it, in order |
| Store.ListingAfterInsert | src/main/java/com/Xogito/Assignment/Implementations/ProjectServiceImpl.java:107 | a row saved under a new id is listed after every earlier row |
| Store.Page | src/main/java/com/Xogito/Assignment/Implementations/UserServiceImpl.java:41 | a page holds at most size rows; it is empty exactly when page*size reaches the row count; otherwise its length is min(size, n - page*size), and its i-th row is row page*size + i |
| Store.PagesArePrefix | src/main/java/com/Xogito/Assignment/Implementations/UserServiceImpl.java:40-46 | reading pages 0 to k-1 in turn gives the first k*size rows in order, with no row skipped or repeated |
| Store.RowOnItsPage | src/main/java/com/Xogito/Assignment/Implementations/ProjectServiceImpl.java:44-50 | row i is entry i mod size of page i div size |
| Store.Filter | src/main/java/com/Xogito/Assignment/Implementations/UserServiceImpl.java:61 | the result is no longer than the input, and it holds only input rows that match |
| Store.FilterComplete | src/main/java/com/Xogito/Assignment/Implementations/UserServiceImpl.java:61 | every matching input row is in the result |
| Store.FilterAppend | src/main/java/com/Xogito/Assignment/Implementations/UserServiceImpl.java:61 | filtering a concatenation filters each part in turn, so the matches keep their store order |
| Store.FilterSingle | src/main/java/com/Xogito/Assignment/Implementations/UserServiceImpl.java:61 | a single row is kept exactly when it matches (with FilterAppend this fixes every filter result) |
| Store.FilterDistinct | src/main/java/com/Xogito/Assignment/Implementations/UserServiceImpl.java:157 | filtering a list without repeats gives a list without repeats |
| Store.FindFirst | src/main/java/com/Xogito/Assignment/Implementations/UserServiceImpl.java:94 | a match is found exactly when some row matches; the found row is a matching row of the input |
| Store.FindFirstIsFirst | src/main/java/com/Xogito/Assignment/Implementations/UserServiceImpl.java:94 | the found row sits at a position before which no row matches |
| Store.SlotFor | src/main/java/com/Xogito/Assignment/Implementations/UserServiceImpl.java:111 | save writes over the stored row exactly when the entity's id is stored; otherwise it writes at the next generated id |
| Store.PutWellFormed | src/main/java/com/Xogito/Assignment/Implementations/ProjectServiceImpl.java:107 | a write keeps every stored id listed once and below the next id; it updates the row in place, or appends a new id at the end of the store order |
| Store.DeleteWellFormed | src/main/java/com/Xogito/Assignment/Implementations/ProjectServiceImpl.java:177 | a delete keeps the store well formed, drops exactly that id from the rows, and unlists it |
| UserServiceImpl.RepositoryValid | src/main/java/com/Xogito/Assignment/Models/User.java:21 | the repository invariant every write keeps: the table is well formed, every row is stored under its own id, and no two rows share an email (the unique index) |
| UserServiceImpl.ListedAreStored | src/main/java/com/Xogito/Assignment/Implementations/UserServiceImpl.java:79 | every listed user is the row stored under its own id |
| UserServiceImpl.FindAll | src/main/java/com/Xogito/Assignment/Implementations/UserServiceImpl.java:40-46 | NOT_FOUND with the fixed message exactly when the requested page is empty; otherwise exactly that page of the users in store order (1 to size of them, row i being row page*size + i) |
| UserServiceImpl.Matching | src/main/java/com/Xogito/Assignment/Implementations/UserServiceImpl.java:61 | the matches are listed users whose names contain the text, and there are no more of them than listed users |
| UserServiceImpl.MatchingComplete | src/main/java/com/Xogito/Assignment/Implementations/UserServiceImpl.java:61 | every listed user whose name contains the text is among the matches |
| UserServiceImpl.MatchingAfterInsert | src/main/java/com/Xogito/Assignment/Implementations/UserServiceImpl.java:61 | a row saved under a new id joins the matches last, and only when its name contains the text |
| UserServiceImpl.FindAllByName | src/main/java/com/Xogito/Assignment/Implementations/UserServiceImpl.java:60-67 | NOT_FOUND echoing the searched text exactly when the requested page of matches is empty; otherwise exactly that page of the matches, each a stored row whose name contains the text |
| UserServiceImpl.FindById | src/main/java/com/Xogito/Assignment/Implementations/UserServiceImpl.java:78-82 | returns a stored user with that id; otherwise NOT_FOUND naming the id, and no stored user has it |
| UserServiceImpl.FindByEmail | src/main/java/com/Xogito/Assignment/Implementations/UserServiceImpl.java:93-97 | returns the one stored user with that email; otherwise NOT_FOUND naming the email, and no stored user has it |
| UserServiceImpl.Save | src/main/java/com/Xogito/Assignment/Implementations/UserServiceImpl.java:111 | the save is rejected exactly when another row holds the email; otherwise the rows become the old rows with the entity, carrying the slot's id, written at its slot; a stored slot keeps the order and the next id, a new slot is the next id, appended to the order, and the next id moves past it |
| UserServiceImpl.EmailTaken | src/main/java/com/Xogito/Assignment/Models/User.java:21 | the unique index on email rejects a write at a slot exactly when a row under another id holds that email |
| UserServiceImpl.SaveKeepsValid | src/main/java/com/Xogito/Assignment/Models/User.java:21 | save is rejected exactly when another row holds the email; an accepted save keeps ids as keys and emails unique |
| UserServiceImpl.SaveKeepsRowsValid | src/main/java/com/Xogito/Assignment/Models/User.java:31-36 | when every stored row and the saved entity meet the bean-validation constraints, every row after the save meets them too |
| UserServiceImpl.UserService.constructor | src/main/java/com/Xogito/Assignment/Implementations/UserServiceImpl.java:25-28 | the service starts over an empty, valid repository |
| UserServiceImpl.UserService.Create | src/main/java/com/Xogito/Assignment/Implementations/UserServiceImpl.java:109-117 | a taken email gives BAD_REQUEST naming it and changes nothing; otherwise the user is stored at its slot and findable by id and by email; a persisted input comes back carrying the new id |
| UserServiceImpl.UserService.Update | src/main/java/com/Xogito/Assignment/Implementations/UserServiceImpl.java:130-142 | in this order: NOT_FOUND for an unknown id; BAD_REQUEST when nothing changes; BAD_REQUEST when the email is taken; otherwise the row at id is replaced, with id, order and next id kept; a failure changes nothing |
| UserServiceImpl.UserService.Remove | src/main/java/com/Xogito/Assignment/Implementations/UserServiceImpl.java:155-159 | NOT_FOUND for an unknown id, with no change; otherwise returns the removed row, which can no longer be found by id |
| UserServiceImpl.CreateSameEmailTwice | src/main/java/com/Xogito/Assignment/Implementations/UserServiceImpl.java:109-117 | after a successful create, a second create with the same email fails with BAD_REQUEST, and the email still finds the first user |
| UserServiceImpl.UpdateTwice | src/main/java/com/Xogito/Assignment/Implementations/UserServiceImpl.java:130-142 | repeating a successful update fails with BAD_REQUEST: nothing is left to change |
| ProjectServiceImpl.RepositoryValid | src/main/java/com/Xogito/Assignment/Models/Project.java:27 | the repository invariant every write keeps: the table is well formed, every row is stored under its own id, and no two rows share a name (the unique index) |
| ProjectServiceImpl.ListedAreStored | src/main/java/com/Xogito/Assignment/Implementations/ProjectServiceImpl.java:88 | every listed project is the row stored under its own id |
| ProjectServiceImpl.FindAll | src/main/java/com/Xogito/Assignment/Implementations/ProjectServiceImpl.java:44-50 | NOT_FOUND with the fixed message exactly when the requested page is empty; otherwise exactly that page of the projects in store order (1 to size of them, row i being row page*size + i) |
| ProjectServiceImpl.Matching | src/main/java/com/Xogito/Assignment/Implementations/ProjectServiceImpl.java:68 | the matches are listed projects whose names contain the text, and there are no more of them than listed projects |
| ProjectServiceImpl.MatchingComplete | src/main/java/com/Xogito/Assignment/Implementations/ProjectServiceImpl.java:68 | every listed project whose name contains the text is among the matches |
| ProjectServiceImpl.MatchingAfterInsert | src/main/java/com/Xogito/Assignment/Implementations/ProjectServiceImpl.java:68 | a row saved under a new id joins the matches last, and only when its name contains the text |
| ProjectServiceImpl.FindAllByName | src/main/java/com/Xogito/Assignment/Implementations/ProjectServiceImpl.java:67-74 | NOT_FOUND echoing the searched text exactly when the requested page of matches is empty; otherwise exactly that page of the matches, each a stored row whose name contains the text |
| ProjectServiceImpl.FindById | src/main/java/com/Xogito/Assignment/Implementations/ProjectServiceImpl.java:87-91 | returns a stored project with that id; otherwise NOT_FOUND naming the id, and no stored project has it |
| ProjectServiceImpl.Save | src/main/java/com/Xogito/Assignment/Implementations/ProjectServiceImpl.java:107 | the save is rejected exactly when another row holds the name; otherwise the rows become the old rows with the entity, carrying the slot's id, written at its slot; a stored slot keeps the order and the next id, a new slot is the next id, appended to the order, and the next id moves past it |
| ProjectServiceImpl.NameTaken | src/main/java/com/Xogito/Assignment/Models/Project.java:27 | the unique index on name rejects a write at a slot exactly when a row under another id holds that name |
| ProjectServiceImpl.SaveKeepsValid | src/main/java/com/Xogito/Assignment/Models/Project.java:27 | save is rejected exactly when another row holds the name; an accepted save keeps ids as keys and names unique |
| ProjectServiceImpl.SaveKeepsRowsValid | src/main/java/com/Xogito/Assignment/Models/Project.java:39-41 | when every stored row and the saved entity meet the bean-validation constraints, every row after the save meets them too |
| ProjectServiceImpl.AssignTo | src/main/java/com/Xogito/Assignment/Implementations/ProjectServiceImpl.java:154-158 | CONFLICT exactly when the user is already a member; otherwise the project with the user appended: one more member, the user among them, still no duplicates |
| ProjectServiceImpl.AssignmentSaved | src/main/java/com/Xogito/Assignment/Implementations/ProjectServiceImpl.java:158-159 | saving a stored project with one user appended is never rejected, replaces only that row and keeps the repository valid |
| ProjectServiceImpl.SaveSameNameSucceeds | src/main/java/com/Xogito/Assignment/Implementations/ProjectServiceImpl.java:158-159 | writing a stored project back under its own id and name is never rejected |
| ProjectServiceImpl.ProjectService.constructor | src/main/java/com/Xogito/Assignment/Implementations/ProjectServiceImpl.java:25-30 | the service starts over an empty, valid repository and the given user service |
| ProjectServiceImpl.ProjectService.Create | src/main/java/com/Xogito/Assignment/Implementations/ProjectServiceImpl.java:104-113 | a taken name gives BAD_REQUEST naming it and changes nothing; otherwise the project is stored at its slot and findable by id; a persisted input comes back carrying the new id |
| ProjectServiceImpl.ProjectService.Update | src/main/java/com/Xogito/Assignment/Implementations/ProjectServiceImpl.java:127-135 | in this order: NOT_FOUND for an unknown id; BAD_REQUEST when nothing changes; the untranslated integrity violation when the name is taken; otherwise the row at id is replaced, users included; a failure changes nothing |
| ProjectServiceImpl.ProjectService.AssignUser | src/main/java/com/Xogito/Assignment/Implementations/ProjectServiceImpl.java:151-161 | in this order: NOT_FOUND for an unknown project; NOT_FOUND for an unknown email; otherwise the outcome of AssignTo on the stored project and the found user, and on success the row at the project's id becomes the returned project, with order and next id kept; never an integrity violation; a failure changes nothing |
| ProjectServiceImpl.ProjectService.Remove | src/main/java/com/Xogito/Assignment/Implementations/ProjectServiceImpl.java:175-179 | NOT_FOUND for an unknown id, with no change; otherwise returns the removed row, which can no longer be found by id |
| ProjectServiceImpl.AssignUserTwice | src/main/java/com/Xogito/Assignment/Implementations/ProjectServiceImpl.java:151-161 | after a successful assignment, the same assignment fails with CONFLICT, and the stored project is the one the first returned |
| ProjectServiceImpl.CreateSameNameTwice | src/main/java/com/Xogito/Assignment/Implementations/ProjectServiceImpl.java:104-113 | after a successful create, a second create with the same name fails with BAD_REQUEST, and the first project stays stored |
| ProjectServiceImpl.UpdateTwice | src/main/java/com/Xogito/Assignment/Implementations/ProjectServiceImpl.java:127-135 | when the body's members are the current user rows, repeating a successful update fails with BAD_REQUEST: nothing is left to change |
| ResponseHandler.HandleMessageResponses | src/main/java/com/Xogito/Assignment/Utilities/ResponseHandler.java:26-30 | the body has exactly one key, "message", bound to the text, at the given status |
| ResponseHandler.HandleDataResponses | src/main/java/com/Xogito/Assignment/Utilities/ResponseHandler.java:39-41 | data and status pass through unchanged |
| ResponseHandler.HandleStatusExceptions | src/main/java/com/Xogito/Assignment/Utilities/ResponseHandler.java:50-53 | the body is {"message": reason}; resolving the exception's numeric code gives back its own status |
| ResponseHandler.FieldMessages | src/main/java/com/Xogito/Assignment/Utilities/ResponseHandler.java:64-69 | every value in the body is the message of an error for that same field |
| ResponseHandler.FieldMessagesKeys | src/main/java/com/Xogito/Assignment/Utilities/ResponseHandler.java:64-69 | the body's keys are exactly the fields that have errors |
| ResponseHandler.FieldMessagesLastWins | src/main/java/com/Xogito/Assignment/Utilities/ResponseHandler.java:64-69 | a field's message is the one from that field's last error |
| ResponseHandler.HandleValidationExceptions | src/main/java/com/Xogito/Assignment/Utilities/ResponseHandler.java:62-71 | BAD_REQUEST; the keys are exactly the erroneous fields, and each one holds the message of its last error |
| ResponseHandler.HandleConstraintValidationExceptions | src/main/java/com/Xogito/Assignment/Utilities/ResponseHandler.java:81-89 | BAD_REQUEST; the body is empty exactly when there are no violations, and otherwise is {"message": the last violation's message} |

## Left out

- The derived query `findByNameContainingIgnoreCase` matches case-insensitively, and the model
  does not define that test: `Matching` takes it as a parameter. The same goes for the syntax
  check of `@Email`, a parameter of `ValidUser`.
- The store order is assumed to be insertion order. Without a `Sort`, the database does not
  promise any order.
- A project holds copies of its users, not references to the current user rows, so a later change
  to a user does not show in the projects it belongs to.
- UserServiceImpl.UserService.Remove: the join table's foreign key is not modelled. In the
  database, deleting a user who is assigned to a project fails; the model always deletes.
- ProjectServiceImpl.ProjectService.Update: the no-op test compares the body against the stored
  copies of the members. Suppose a member's user row is updated, and the project is then updated
  with a body that lists the member's current row. The source loads the members through the join
  table, finds the body equal to the stored project and answers BAD_REQUEST "no changes"; the model
  sees a difference and writes the row. The reverse also differs: a body that carries the old copy
  is rejected by the model as "no changes" but saved by the source.
- Ids are unbounded integers, not 64-bit `Long`s; id generation never overflows.
- UserServiceImpl.UserService.Create: a create rejected by the unique index leaves the next id as
  it was. The database runs the identity INSERT before the index rejects it, and common databases
  do not give that identity value back, so the next successful create may receive a higher id
  than the model's.
- ProjectServiceImpl.ProjectService.Create: the same as for users: a rejected insert may use up
  an identity value, and the model keeps the next id unchanged.
- A merge of an entity that carries an unknown id is modelled as an insert under a newly generated
  id, and the input object is not given that id.
- Building a project from a request body (the empty user list the field initialiser at
  Project.java:48 gives when the body has no "users"): `Create` takes the project as given.
- Validation of a project's user list: the model does not check whether the users it holds exist.
- ProjectServiceImpl.ProjectService.AssignUser: decides membership against the copies the project
  holds. Suppose a member's user row is updated after the assignment, and the user is then assigned
  again. The source loads the members through the join table, sees the current row and answers
  CONFLICT. The model compares against the stale copy, so it appends a second entry for the same
  user id.
- `System.out.println` in `ProjectServiceImpl.create`: console output is not part of the model.
- Transactions and concurrent requests: each call is atomic in the model.
- Null values: a string that Java could leave null (a reason, a description, a missing field in a
  request body) is modelled as a string or an `Option`. Where the source would dereference a
  null, the model has no corresponding failure.
- Controllers: the routing, JSON views and annotation-driven validation are not modelled. Only
  their constraints carry over, as preconditions of the service functions:
  - `page >= 0`, which the type `nat` enforces;
  - `size >= 1`;
  - a non-blank search text or email.
- Spring's default 500 handling: the untranslated integrity violation of `ProjectService.Update` is
  returned as a failure, and it does not reach `ResponseHandler`.
- ResponseHandler.HandleStatusExceptions: accepts only status errors (the handler is registered
  for `ResponseStatusException` alone), so it never receives a code that fails to resolve.
- ResponseHandler.HandleValidationExceptions: binding errors that are not field errors, which
  the cast at line 66 would reject, are not modelled.
- ResponseHandler.HandleConstraintValidationExceptions: the violations are a `Set`, so which one
  comes last depends on the iteration order. The model takes that order as the given sequence.
