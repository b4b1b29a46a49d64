# Todo app core: task stores, credentials and request identity

This project models the core of a todo application that exists in two
versions. The command-line version keeps its tasks in memory. The web
backend keeps tasks and users in a database and shows each user only their
own tasks. The model covers:

- **`TodoCli`**: the command-line `TaskService`. It is a class holding a map
  from id to task and the next id to hand out. Its methods are get, list,
  add, update, delete and toggle.
- **`OwnedTasks`**: the backend task service. A `TaskStore` class holds the
  task table as a map plus the table's auto-increment counter. Every
  operation filters rows by both the task id and the caller's user id.
- **`Auth`**: the backend credential store. It holds a user table keyed by
  id: `register_user` is a method on `UserStore`, and `authenticate_user` is
  a pure function over the table.
- **`CurrentUser`**: `get_current_user`. It works out from the
  `access_token` cookie who is making a request, or gives the one 401 error.
- **`TaskSchemas`**: the length bounds of the `TaskCreate` and `TaskUpdate`
  request bodies, and the field set of `TaskResponse`.
- Supporting modules:
  - `Wrappers` holds `Option` and `Result`.
  - `Text` holds Python's `str.strip()` and `int` formatting.
  - `TaskModel` and `UserModel` hold the table rows.
  - `ErrorCodes` holds the error codes.

Things the model receives as parameters:

- **Clock.** Time is an abstract clock. Every backend method that stamps a
  row takes `now: nat`.
- **Password hashing.** `hash_password` and `verify_password` come in as a
  `PasswordHasher` value holding two functions. The only assumption is
  `HashSound`: every password verifies against its own hash. Only the lemma
  that needs it requires it.
- **Token verification.** The JWT check (`verify_token`) comes in as a
  function `string -> Option<int>`.

Two listings are loops over the id range `1 .. nextId - 1`, which holds
every stored id:

- the command-line `get_all_tasks` (`sorted(keys)`);
- the backend `list_tasks` query (`ORDER BY created_at DESC`). Here each of
  the caller's rows is inserted into a newest-first listing.

Where the project's stated requirements and the code disagree, the model follows the code:

- A task that exists but belongs to another user gives `None`/`False`,
  exactly like an absent task. The routes turn both into 404; no 403 is ever
  produced (`backend/src/api/routes/tasks.py:107-113`), although requirement
  FR-019 asks for 403 FORBIDDEN (`backend/src/api/routes/tasks.py:102`).
- `list_tasks` orders by creation time, newest first, not oldest first.
- Backend titles are not trimmed. A whitespace-only title of 1 to 200
  characters is accepted (`TaskSchemas.BlankTitleAccepted`). The
  command-line version does strip titles.
- `register_user` compares emails as exact strings.
- The token is read from the cookie only. There is no `Authorization`
  header fallback.
- `register_user` does not check password length. The minimum of 8 is
  enforced by the `UserCreate` schema, which is not part of this model.

## Model

| member | source | states |
|---|---|---|
| `Text.TrimStart` | src/services/task_service.py:29 | the result is the longest suffix of the input that does not start with whitespace; everything dropped is whitespace |
| `Text.TrimEnd` | src/services/task_service.py:29 | the result is the longest prefix of the input that does not end with whitespace; everything dropped is whitespace |
| `Text.Strip` | src/services/task_service.py:34 | the stripped title is no longer than the input and has no whitespace at either end |
| `Text.StripKeepsMiddle` | src/services/task_service.py:34 | the stripped title is the slice of the input left after cutting off a whitespace-only prefix and a whitespace-only suffix |
| `Text.StripEmptyIffBlank` | src/services/task_service.py:29-30 | `not title or not title.strip()` holds exactly when every character is whitespace (Python's whitespace set) |
| `Text.StripIdempotent` | src/services/task_service.py:60 | stripping a stripped title changes nothing |
| `Text.NatToString` | src/services/task_service.py:65 | a natural number renders as a non-empty string of decimal digits with no leading zero, whose digit value is the number itself |
| `Text.IntToString` | src/services/task_service.py:79 | `f"{task_id}"` starts with '-' exactly for negative ids. The rest is a canonical decimal numeral (digits only, no leading zero) for the id's magnitude, so the rendering reads back as the id |
| `Text.DecimalIsCanonical` | src/services/task_service.py:65 | every canonical decimal numeral is the rendering of the number it denotes, so each number has exactly one rendering |
| `TodoCli.UpdatedMessage` | src/services/task_service.py:65 | the success message is "Task ", the rendering of the id, then " updated successfully"; the part between reads back as the task id |
| `TodoCli.DeletedMessage` | src/services/task_service.py:79 | the success message is "Task ", the rendering of the id, then " deleted successfully"; the part between reads back as the task id |
| `TodoCli.Toggled` | src/services/task_service.py:93 | toggling flips `completed` and leaves id, title and description as they were |
| `TodoCli.ToggledTwice` | src/services/task_service.py:93 | toggling twice restores the task exactly |
| `TodoCli.TaskService.constructor` | src/services/task_service.py:9-11 | a fresh service has no tasks and `_next_id == 1` |
| `TodoCli.TaskService.GetTask` | src/services/task_service.py:13-15 | `Some` exactly when the id is stored, and then the task stored under it, whose own id is that id |
| `TodoCli.TaskService.GetAllTasks` | src/services/task_service.py:17-19 | every stored task appears, only stored tasks appear, and ids strictly increase (so none appears twice) |
| `TodoCli.TaskService.AddTask` | src/services/task_service.py:21-41 | a blank title fails with "Task title cannot be empty" and changes nothing. Otherwise the task is stored under the old `_next_id`, which is fresh and above every existing id, with the stripped title and `completed == False`; that id is returned and `_next_id` grows by 1. Stored titles stay non-empty and stripped |
| `TodoCli.TaskService.UpdateTask` | src/services/task_service.py:43-65 | a missing id gives "Invalid task ID" and a supplied blank title gives "Task title cannot be empty", both with no change. On success only that task changes: its title to the stripped new one if supplied, its description if supplied; `completed`, id, other tasks and `_next_id` stay |
| `TodoCli.TaskService.DeleteTask` | src/services/task_service.py:67-79 | a missing id fails with "Invalid task ID" and no change; otherwise exactly that key is removed. `_next_id` never changes, so ids are never reused |
| `TodoCli.TaskService.ToggleTask` | src/services/task_service.py:81-94 | `None` with no change for a missing id; otherwise the new, flipped `completed` is returned and only that task's flag changes |
| `TaskSchemas.TitleValid` | backend/src/api/schemas/task.py:21-26 | a present title is valid exactly when its length is between 1 and 200 characters; it is not trimmed |
| `TaskSchemas.DescriptionValid` | backend/src/api/schemas/task.py:27-31 | a description is valid when absent, or when present with at most 2000 characters |
| `TaskSchemas.TaskCreateValid` | backend/src/api/schemas/task.py:14-31 | a create body is valid when its required title and its optional description both are |
| `TaskSchemas.TaskUpdateValid` | backend/src/api/schemas/task.py:34-51 | an update body is valid when its title, if present, and its description, if present, are |
| `TaskSchemas.TitleErrors` | backend/src/api/schemas/task.py:21-26 | a title has no error exactly when its length is between 1 and 200; it is reported too short exactly when empty and too long exactly when over 200 characters |
| `TaskSchemas.DescriptionErrors` | backend/src/api/schemas/task.py:27-31 | an absent description, or one of at most 2000 characters, has no error; a longer one has exactly "too long" |
| `TaskSchemas.ParseTaskCreate` | backend/src/api/schemas/task.py:14-31 | a body is accepted exactly when the title is present with length 1..200 and the description is absent or at most 2000 characters. An accepted body keeps both fields exactly as sent. A missing title and a long description are each reported exactly when they occur, and every error of a present title is reported. Every reported error is one the fields really have, and none is reported twice |
| `TaskSchemas.ParseTaskUpdate` | backend/src/api/schemas/task.py:34-51 | both fields may be absent. A present title must have length 1..200 and a present description at most 2000 characters. An accepted body is kept as sent. "missing" is never reported, every error of a present title is reported, every reported error is one the fields really have, and none is reported twice |
| `TaskSchemas.BlankTitleAccepted` | backend/src/api/schemas/task.py:21-26 | a whitespace-only title of 1 to 200 characters passes both schemas, although it strips to the empty string |
| `TaskSchemas.CreateBodyIsUpdateBody` | backend/src/api/schemas/task.py:41-51 | every valid create body is also a valid update body |
| `TaskSchemas.ToResponse` | backend/src/api/schemas/task.py:54-66 | the response copies `id`, `title`, `description`, `is_completed`, `created_at` and `updated_at` from the row |
| `TaskSchemas.ResponseHidesOwner` | backend/src/api/schemas/task.py:61-66 | two rows that differ only in `user_id` give the same response, so the owner is not exposed |
| `OwnedTasks.OthersUntouchedCompose` | backend/src/services/task.py:86-170 | if each call by a user leaves other owners' rows alone, a sequence of such calls does too |
| `OwnedTasks.Toggled` | backend/src/services/task.py:165-166 | toggling flips `is_completed`, sets `updated_at` to now and changes no other field |
| `OwnedTasks.ToggledTwice` | backend/src/services/task.py:165-166 | toggling twice restores every field except `updated_at` |
| `OwnedTasks.InsertNewestFirst` | backend/src/services/task.py:27 | inserting a row adds exactly that row to the listing (multiset) |
| `OwnedTasks.InsertMembers` | backend/src/services/task.py:27 | after insertion the listing holds exactly the old rows and the new one |
| `OwnedTasks.InsertKeepsNewestFirst` | backend/src/services/task.py:27 | insertion keeps a listing sorted by `created_at`, newest first |
| `OwnedTasks.InsertKeepsDistinctIds` | backend/src/services/task.py:27 | inserting a row with a new id keeps the ids in the listing distinct |
| `OwnedTasks.TaskStore.constructor` | backend/src/models/task.py:31 | an empty table whose auto-increment starts at 1 |
| `OwnedTasks.TaskStore.GetTask` | backend/src/services/task.py:31-46 | returns the row only when it exists and its `user_id` is the caller's; the row then has that id and owner. An absent row and another user's row both give `None` |
| `OwnedTasks.TaskStore.ListTasks` | backend/src/services/task.py:15-28 | every row of the caller appears, and nothing else. No id appears twice. `created_at` never increases along the list (newest first) |
| `OwnedTasks.TaskStore.CreateTask` | backend/src/services/task.py:49-83 | the new row has the given title and description, `is_completed == False`, the caller as owner, `created_at == updated_at == now`, and a fresh id. It is the only change, and `get_task` then finds it for the caller |
| `OwnedTasks.TaskStore.UpdateTask` | backend/src/services/task.py:86-121 | returns `None`, with the table unchanged, exactly when the row is not the caller's. Otherwise it sets the title only if one is supplied and the description only if one is supplied, always refreshes `updated_at`, and leaves `is_completed`, owner and `created_at` as they were. No other row changes |
| `OwnedTasks.TaskStore.DeleteTask` | backend/src/services/task.py:124-144 | `True` exactly when the row is the caller's, and then exactly that row is removed. `False` leaves the table unchanged. Other owners' rows always remain |
| `OwnedTasks.TaskStore.ToggleTask` | backend/src/services/task.py:147-170 | `None`, with no change, exactly when the row is not the caller's. Otherwise the flag flips and `updated_at` is refreshed on that row only, and no row changes owner |
| `Auth.EmailTaken` | backend/src/services/auth.py:30-33 | some stored user has exactly this email string |
| `Auth.FindByEmail` | backend/src/services/auth.py:62-63 | finds a user exactly when one has this exact email, and returns that stored user |
| `Auth.Authenticate` | backend/src/services/auth.py:49-71 | returns the user exactly when one has the email and the password verifies against that user's stored hash. An unknown email and a wrong password both give the same `None`. The table is only read |
| `Auth.RegisteredUserAuthenticates` | backend/src/services/auth.py:37-46 | adding a user under a new id with a new email keeps emails unique. With a sound hash, authenticating with the registered password then returns that user |
| `Auth.UserStore.constructor` | backend/src/models/user.py:23-29 | an empty user table, ids from 1 |
| `Auth.UserStore.RegisterUser` | backend/src/services/auth.py:15-46 | `None` with no write exactly when the exact email is taken. Otherwise it adds one user, under a fresh id, with that email and `hashed_password == hash(password)`; the plaintext is not stored. Emails stay unique |
| `CurrentUser.TokenOf` | backend/src/api/deps.py:48 | the token is present exactly when the request has an `access_token` cookie, and is then that cookie's value |
| `CurrentUser.GetCurrentUser` | backend/src/api/deps.py:27-78 | `Ok` exactly when the cookie is present, non-empty and verifies to an id that is in the user table. The user returned is the one stored under the decoded id. Every failure (missing cookie, bad token, unknown id) is the same 401 "Please log in to continue" / UNAUTHORIZED |
| `CurrentUser.IdentityFromTokenOnly` | backend/src/api/deps.py:48-78 | two requests with the same `access_token` cookie resolve alike, whatever their headers, query, body or other cookies |
| `CurrentUser.MissingTokenRejected` | backend/src/api/deps.py:48-55 | a missing or empty `access_token` cookie gives the 401 error |

## Left out

- The command-line input/output loops (`src/cli/`, `src/main.py`) are not modelled. They only prompt and print.
- The HTTP route wrappers (`backend/src/api/routes/`) are not modelled: decorators, cookie setting, and mapping `None` to 404, 409 or 401. Every `None`/`False` the task service returns becomes 404 (`backend/src/api/routes/tasks.py:107-113`, `149-155`, `183-189`, `215-221`).
- `backend/src/core/security.py` is not part of this model. bcrypt and JWT are replaced by the abstract `PasswordHasher` and `verifyToken` parameters.
- Token issuing (`create_access_token`), expiry and logout are not part of this model.
- The database engine, sessions, commits, configuration and app setup are not modelled. Concurrent requests are not modelled either: each call is one atomic step.
- Real `datetime` values and time zones are replaced by a natural-number clock that the caller supplies.
- Pydantic `EmailStr` format checks, any normalisation it applies to the address before `register_user` sees it, and the `UserCreate` password minimum are library or schema behaviour outside this model.
- Python `Task` objects are shared by reference in the command-line service. The model treats tasks as values written back into the map, which gives the same observable state.
- Ids are unbounded integers. The database's integer column width is not modelled.
- `Auth.UserStore.RegisterUser`: bcrypt's random salt is not modelled. The hash is a fixed function of the password, so the only claim about secrecy is that the stored row holds `hash(password)` and no password field.
- `OwnedTasks.TaskStore.ListTasks`: the order of rows created at the same clock reading is left open, as the database leaves it; the model produces one such order.
- `OwnedTasks.TaskStore.CreateTask` and `UpdateTask` require the schema bounds on their inputs. The service itself does not check them: the routes only ever pass validated request bodies.
