# Peer payments and course management, modelled in Dafny

This project models the two small web back ends of the repository.

- **Payment service** (`venmo/`): users with balances send money to each other. A transfer is
  recorded as pending (`accepted` null), accepted or rejected. It moves money only when it is
  accepted and the sender holds at least the amount at that moment.
- **Course service** (`cms/`): courses own assignments (cascade delete). Users join courses
  through an association table that has no uniqueness constraint. A course lists each of its
  users once, and a user lists each of their courses once.

Each endpoint is a pure function from the store to a `Reply(store, result)`. `result` is the
response value or a `Failure(code, message)` that carries the handler's own HTTP code and
message. The store is returned even on failure, because one payment handler fails only after it
has written. A Python exception the handler does not catch is answered by Flask with 500, and the
model writes it as `Failure(500, …)`.

Tables are maps from id to row. Ids are allocated in two different ways:
- The payment tables are AUTOINCREMENT. Their ids come from counters that start at 1 and never
  hand out an id twice.
- The course tables have a plain INTEGER PRIMARY KEY. A new row gets one more than the largest id
  in use, or 1 if the table is empty (`Tables.NextRowId`). An id freed by deleting the newest row
  is therefore handed out again (`CmsProps.DeletedTopCourseIdReused`, `CmsProps.IdReuseExample`).

The course association table is a sequence of rows in insertion order. A full-table read returns
rows in ascending id order (`Tables.IdsBelow`).

`VenmoDb.Valid` and `CmsDb.Valid` are the invariants of every reachable store:
- ids are positive, and a payment-table id lies below its counter;
- on the course side, every assignment and every association row names an existing course (and
  user).

Endpoints take `Valid` as a precondition and re-establish it. `VenmoProps.Run` and `CmsProps.Run`
show that any sequence of requests keeps it.

Behaviours of the code that the model keeps:
- **Ordering of the balance writes.** A settlement writes the sender's balance, then the
  receiver's. Each written value is computed from the rows read before either write.
  - Between two different users the total is conserved.
  - A transfer from a user to itself adds the amount to that user, because the second write wins
    (`VenmoProps.SendMoneySelfTransferAddsAmount`, `VenmoProps.SelfTransferExample`).
- **Resolving after a user was deleted.** Accepting a pending transfer whose receiver row was
  deleted raises after two writes: the transfer is already marked accepted and the sender is
  already debited. The reply is 500 and the amount leaves the users table
  (`VenmoProps.UpdateTransactionDeletedReceiverLosesAmount`). If the sender was deleted, the
  handler raises before it writes anything.
- **The 400 for a failed user creation cannot happen.** `create_user` answers 400 only if the row
  it just inserted cannot be read back, and that never happens. A missing name or username
  instead violates a NOT NULL column. The handler does not catch that error, so the reply is 500.
- **Self-transfers are listed twice.** A user's transaction list is the rows the user sent,
  followed by the rows the user received, so a self-transfer appears twice.
- **Enrolling twice.** `assign_user_to_course` does not check for an existing association row,
  but a course lists each user once (`CmsProps.AssignTwiceListsOnce`).
- **The assignment's course snapshot is not stored.** The snapshot is set on the new Python
  object, but it is not a mapped column. It appears in the creation response only.

## Model

| member | source | states |
|---|---|---|
| VenmoDb.Init | venmo/db.py:22-32 | a freshly constructed driver has no users and no transactions: every lookup misses and every listing is empty |
| VenmoDb.GetAllUsers | venmo/db.py:77-85 | lists every users row exactly once, in id order, each with id, name and username but no balance |
| VenmoDb.GetAllTransactions | venmo/db.py:87-93 | lists every txns row exactly once, in id order, with all seven fields |
| VenmoDb.GetUserById | venmo/db.py:95-102 | returns None exactly when no row has that id (an absent id included), otherwise the row's id, name, username and balance |
| VenmoDb.InsertUser | venmo/db.py:105-116 | fails exactly when name or username is missing (NOT NULL); otherwise the new id is fresh, reads back the inserted fields and leaves other users and all transactions unchanged |
| VenmoDb.DeleteUserById | venmo/db.py:118-126 | removes that user only; other users and every transaction row, including those naming the user, stay |
| VenmoDb.UpdateBalance | venmo/db.py:128-139 | sets the balance to the given absolute value, not a delta; other users, names and all transactions are unchanged; an unknown id changes nothing |
| VenmoDb.InsertTransaction | venmo/db.py:141-152 | reading back the returned id yields the inserted fields, with `accepted` as a boolean (see Left out); the id is fresh; other transactions and all users are unchanged |
| VenmoDb.GetTransactionById | venmo/db.py:154-162 | returns None exactly when no row has that id, otherwise that row |
| VenmoDb.UpdateTransaction | venmo/db.py:164-176 | changes only `accepted` and the timestamp of that row; every other field and row is unchanged |
| VenmoDb.GetUserTransactions | venmo/db.py:178-193 | holds only rows the user sent or received, and (in a valid store) every such row; the order and the multiplicity are stated by `VenmoProps.UserTransactionsOrder` and `VenmoProps.UserTransactionsCount` |
| VenmoApp.StoredBalance | venmo/app.py:30-31 | a falsy or absent balance is stored as 0, any other as given |
| VenmoApp.Settle | venmo/app.py:89-90 | the receiver ends at its balance read before the writes plus the amount; a distinct sender ends at its earlier balance minus the amount; no other user, no transfer and no counter changes |
| VenmoApp.CreateUser | venmo/app.py:22-37 | a missing name or username fails with 500 and changes nothing; otherwise a fresh user with the defaulted balance and an empty transactions list; the 400 branch is never taken |
| VenmoApp.GetUser | venmo/app.py:39-49 | 404 exactly when the id is unknown; otherwise the user with the transfers it sent and received; nothing changes |
| VenmoApp.DeleteUser | venmo/app.py:55-66 | 404 exactly when unknown; otherwise removes only the user row and answers with the row and its transfers, which remain listed afterwards |
| VenmoApp.SendMoney | venmo/app.py:68-97 | 400 for missing sender, then missing receiver, then missing amount; 403 for accepted=true with too little balance; every error leaves the store unchanged; otherwise records the transfer with `accepted` as supplied; with accepted=true the receiver ends at its old balance plus the amount and a distinct sender at its old balance minus it, both from balances read before the writes |
| VenmoApp.UpdateTransaction | venmo/app.py:99-130 | 400 for an unknown transfer; 403 for an already accepted or rejected one whatever is requested; 403 with nothing changed when the sender is short; on acceptance the transfer becomes accepted with the new timestamp, the sender is debited and the receiver credited; otherwise only `accepted` and the timestamp change, so an omitted value leaves it pending |
| VenmoProps.UpdateBalanceTotal | venmo/db.py:128-139 | one balance write moves the total held by all users by exactly the difference between the new and the old balance |
| VenmoProps.SettleTotal | venmo/app.py:89-90 | the two snapshot-based writes conserve the total between distinct users and add the amount when sender and receiver coincide |
| VenmoProps.SendMoneyConservesTotal | venmo/app.py:85-93 | a send between two different user ids never changes the total money, whatever its outcome |
| VenmoProps.SendMoneySelfTransferAddsAmount | venmo/app.py:89-90 | an accepted self-transfer succeeds and leaves the user, and the total, richer by the amount |
| VenmoProps.SelfTransferExample | venmo/app.py:85-90 | a user with 10 who sends 5 to itself with accepted=true ends with 15 |
| VenmoProps.UpdateTransactionConservesTotal | venmo/app.py:112-124 | resolving a transfer between two different users, when it succeeds, never changes the total money |
| VenmoProps.UpdateTransactionDeletedReceiverLosesAmount | venmo/app.py:116-124 | accepting a transfer whose receiver was deleted answers 500 after marking it accepted and debiting the sender, so the total drops by the amount |
| VenmoProps.Apply | venmo/app.py:22-130 | every endpoint keeps the store invariant |
| VenmoProps.Run | venmo/app.py:22-130 | any sequence of requests keeps the store invariant |
| VenmoProps.ApplyKeepsSettled | venmo/app.py:109-110 | no request removes a transfer, and an accepted or rejected transfer is never changed again |
| VenmoProps.RunKeepsSettled | venmo/app.py:109-110 | over any sequence of requests, settled transfers stay exactly as they were |
| VenmoProps.OnlyAcceptanceMovesBalances | venmo/app.py:85-93 | a request that does not carry accepted=true changes the balance of no user it keeps |
| VenmoProps.SelfTransferListedTwice | venmo/db.py:178-193 | a transfer from a user to itself occurs twice in that user's transaction list |
| VenmoProps.UserTransactionsOrder | venmo/db.py:183-191 | the listing splits into the transfers the user sent, in id order, followed by the transfers the user received, in id order |
| VenmoProps.UserTransactionsCount | venmo/db.py:183-191 | a transfer occurs once for each of its sender and receiver columns that holds the user, so twice for a self-transfer and at most once otherwise |
| VenmoProps.UserTransactionsExactly | venmo/db.py:178-193 | a transfer appears in a user's list if and only if the user sent or received it |
| VenmoProps.ExampleSession | venmo/app.py:68-130 | A(100) sends 40 to B(0) pending: balances unchanged; accepting gives A 60 and B 40; resolving again is refused with 403 and changes nothing |
| VenmoProps.ExampleInsufficientFunds | venmo/app.py:85-87 | sending 50 from a user with 10 with accepted=true is refused with 403 and records nothing |
| CmsDb.Init | cms/app.py:14-20 | the empty tables satisfy the store invariant |
| Tables.NextRowId | cms/db.py:32 | a new row's id is one more than the largest id in use, or 1 for an empty table; it is never an id in use |
| CmsDb.NewCourse | cms/db.py:42-49 | a missing code or name defaults to "" |
| CmsDb.NewAssignment | cms/db.py:88-96 | a missing title defaults to "" and a missing due date to 0; the course id is kept |
| CmsDb.NewUser | cms/db.py:131-136 | a missing name or netid defaults to "" |
| CmsDb.SelectAssignments | cms/db.py:35 | picks out the assignments of a course from a scan, each once; an ascending scan gives an ascending result |
| CmsDb.CourseAssignmentIds | cms/db.py:35 | a course's assignments are the assignments whose course id names it, all of them, in ascending id order |
| CmsDb.Members | cms/db.py:36 | a course's users are the existing users with an association row for the course, each listed once |
| CmsDb.CoursesOf | cms/db.py:129 | a user's courses are the existing courses with an association row for the user, each listed once |
| CmsDb.SerializeAssignment | cms/db.py:98-117 | the full form is the simple form plus the course snapshot; the simple form has no course |
| CmsDb.SerializeCourse | cms/db.py:52-73 | the full form extends the simple form (id, code, name) with the course's assignments in simple form and its users in simple form, and "instructors" equals "students" |
| CmsDb.SerializeUser | cms/db.py:139-159 | the full form extends the simple form (id, name, netid) with the simple forms of the user's courses |
| CmsDb.DeleteCourseCascade | cms/db.py:35-36 | deleting a course removes exactly its assignments and its association rows; every other association row keeps its multiplicity, every other course keeps its user list, users stay, and the foreign-key invariant holds |
| CmsDb.AppendMember | cms/app.py:138-140 | enrolling adds one association row without checking for an existing one |
| CmsDb.AddCourse | cms/app.py:40-42 | a new course gets one more than the largest course id in use, or 1; nothing else changes |
| CmsDb.AddAssignment | cms/app.py:87-89 | a new assignment gets one more than the largest assignment id in use, or 1; nothing else changes |
| CmsDb.AddUser | cms/app.py:101-103 | a new user gets one more than the largest user id in use, or 1; nothing else changes |
| CmsDb.MembersAppend | cms/app.py:138-141 | one more association row appends its user to the end of the course's list unless the user is already listed |
| CmsDb.MembersExactly | cms/db.py:36 | an existing user is listed for a course if and only if an association row joins them |
| CmsDb.MembersDrop | cms/db.py:35-36 | dropping one course's association rows leaves every other course's user list as it was |
| CmsApp.GetCourses | cms/app.py:23-29 | lists every course exactly once, in id order, each serialized |
| CmsApp.CreateCourse | cms/app.py:32-43 | 400 with nothing changed exactly when code or name is missing; otherwise a course with the given code and name, empty lists, and the id one more than the largest in use |
| CmsApp.GetCourse | cms/app.py:46-54 | 404 exactly when no course has the id; otherwise the serialized course; nothing changes |
| CmsApp.DeleteCourse | cms/app.py:58-68 | 404 exactly when unknown; otherwise answers with the course as it was and removes it with its assignments and its association rows, keeping every other association row; users stay |
| CmsApp.CreateAssignment | cms/app.py:71-90 | 404 for an unknown course before checking the body, then 400 for a missing title or due date; otherwise an assignment with the next free id, the course id, and the course's id, code and name as they were |
| CmsApp.CreateUser | cms/app.py:93-104 | 400 with nothing changed exactly when netid or name is missing; otherwise a user with the next free id, in no course |
| CmsApp.GetUser | cms/app.py:107-115 | 404 exactly when no user has the id; otherwise the serialized user; nothing changes |
| CmsApp.AssignUserToCourse | cms/app.py:118-141 | 404 for an unknown course, then 400 for a missing or unknown user; otherwise one more association row, and the user is added at the end of instructors and students unless already enrolled, in which case both lists stay as they were |
| CmsProps.CreateThenGetCourse | cms/app.py:32-54 | a created course reads back with its code and name and empty lists |
| CmsProps.DeleteCourseKeepsUsers | cms/app.py:58-68 | after deleting a course every user is still readable, none lists the course, and none of its assignments remains |
| CmsProps.DeleteCourseKeepsOtherMembers | cms/app.py:58-68 | deleting a course leaves the instructors and students of every other course unchanged |
| CmsProps.AssignTwiceListsOnce | cms/app.py:118-141 | enrolling the same user twice writes two association rows, but the course lists the user once in instructors and once in students |
| CmsProps.Apply | cms/app.py:23-141 | every endpoint keeps the store invariant, foreign keys included |
| CmsProps.Run | cms/app.py:23-141 | any sequence of requests keeps the store invariant |
| CmsProps.ApplyAssignmentLivesWithCourse | cms/db.py:35 | after any request an existing assignment is still there, unchanged, exactly when its course is |
| CmsProps.ApplyKeepsCourse | cms/app.py:58-68 | only a delete of that course removes a course or changes it |
| CmsProps.RunKeepsAssignment | cms/db.py:35 | over any run that never deletes its course, an assignment stays, unchanged |
| CmsProps.DeletedTopCourseIdReused | cms/db.py:32 | a course created right after deleting the course with the largest id gets an id no larger, and exactly that id when no gap lies below it |
| CmsProps.IdReuseExample | cms/app.py:32-90 | create course 1 with assignment 1, delete the course, create a course: it is course 1 again, while assignment 1 stays gone until the next assignment takes id 1 |

## Left out

- HTTP routing and JSON encoding and decoding are not modelled. Request fields arrive already parsed, with None for an absent key. The `{"users": …}` envelopes of `get_users` and `get_trans` are the listings `VenmoDb.GetAllUsers` and `VenmoDb.GetAllTransactions`.
- JSON values of an unexpected type are not modelled: an amount given as a string, `accepted` given as `1` (which Python treats as equal to True), a non-integer balance. Amounts and balances are integers; `accepted` is an optional boolean.
- sqlite and SQLAlchemy themselves (connections, SQL text, sessions, commits) are replaced by maps, counters and the id rule of `Tables.NextRowId`. The `singleton` wrapper and connection reuse are left out too, since they are infrastructure.
- `datetime.datetime.now()` is the natural-number parameter `now`.
- Process startup (`app.run`, configuration flags) is not modelled. The course database file survives restarts; `CmsDb.Init` is the state of a new file.
- Crashes between the two balance writes, and atomicity in general, are not modelled: the model is sequential. The one in-handler failure that happens between writes (a deleted receiver) is modelled.
- The course ids assume that sqlite takes one more than the largest rowid in use. It picks at random only once the largest rowid possible has been used, which is far beyond any reachable state.
- The rows of a full-table read are returned in ascending id order. The SQL has no ORDER BY, so this is the engine's usual order, not a promise.
- CmsDb.Members: the relationship lists `course.users` and `user.courses` come from SQLAlchemy's relationship loader, and SQLAlchemy is not part of this model. The model assumes that the loader returns each related row once and in the order of its first association row. The join has no ORDER BY, so that order is not promised.
- CmsDb.AppendMember: whether the library writes a second association row when an enrolled user is appended again is library behaviour. The model writes one. No response depends on it, because listings show each user once.
- CmsApp.DeleteCourse: deleting a course with two association rows for the same user may make the library report a row-count mismatch. The model deletes all of the course's rows and answers normally.
- VenmoDb.InsertTransaction: `accepted` is a BOOLEAN column (venmo/db.py:60). Python's sqlite3 hands it back as 1 or 0, so the service's responses carry 1/0 for true/false; the commented-out conversion at venmo/app.py:129 shows this. The model keeps it as an optional boolean, which is the same information.
- The `type` field that `assign_user_to_course` reads is ignored by the code, and it is not a parameter of the model.
- The commented-out instructor and student association tables are dead code and are not modelled.
