# Complaint management: a Dafny model of the complaint lifecycle

This project models the core of a civic complaint-management application
in Dafny. Citizens submit complaints that a keyword classifier routes to one
of six government departments. Department admins list, filter and update the
complaints of their own department. A small server stores complaints, users
and admins in memory.

The model covers:

- the in-memory complaint store and its statistics (`ComplaintStore`,
  `ComplaintSeed`, `ComplaintStats`, `Sentiment`);
- the complaint controller's access and scoping decisions
  (`ComplaintController`);
- the user and admin stores (`UserStore`, `AdminStore`);
- the authentication controller (`AuthController`);
- the token format and the authentication middleware (`Token`,
  `AuthMiddleware`);
- the request validators (`Validation`) and the error mapping
  (`ErrorHandler`);
- the tables and helpers shared by client and server (`SharedApi`);
- three client pieces: the complaint form and classifier (`UserDashboard`),
  the admin dashboard's view logic (`AdminDashboard`), and the client-side
  admin session (`AdminContext`).

Every store is a `seq` of immutable records. Each operation is a pure
function from a store to a pair of a result and the new store. A JavaScript
field that may be absent is an `Option`. A clock reading is a `nat`
parameter `now`. Strings are `seq<char>`. The two generic helper modules
are `Common` (Option, filtering, first match, subsequences, distinct
values, occurrence sums) and `Strings` (ASCII lower-casing, trimming,
substring search, splitting on a separator, `parseInt` without a radix,
and decimal printing).

Identifiers follow JavaScript's strict equality, not a single id type.

- Every id argument is first read as `parseInt` without a radix would read it (`Strings.ParseId`): leading white space is skipped, one sign is read, and a "0x" prefix selects base 16. White space is ASCII only here (see Left out).
- A complaint's `userId` is a `ComplaintStore.StoredId`:
  - the seeded complaints hold numbers;
  - a complaint created through the API holds the text of the token's user id.
- Filters compare the stored id with `=== parseInt(...)`.
- The controller's ownership test compares it with `!==` against the token's string.

The lemmas in `ComplaintController` spell out what follows from this:

- a complaint a user creates never appears in that user's own lists;
- its owner cannot read a seeded complaint by id (`ComplaintController.SeededOwnerCannotRead`);
- an admin token is refused wherever the user check runs first.

## Model

| member | source | states |
|---|---|---|
| ComplaintStore.FindAll | server/models/Complaint.js:184-199 | The list holds exactly the stored records that satisfy every supplied status, department, userId and assignedTo filter, each as often as in the store. It is sorted newest-first by creation time. |
| ComplaintStore.FindAllLength | server/models/Complaint.js:184-199 | Sorting neither drops nor duplicates: the listing is exactly as long as the filtered store. |
| ComplaintStore.FindAllIgnoresUnusedFilters | server/models/Complaint.js:173-199 | The sentiment, search, limit and offset filters have no effect on the list. |
| ComplaintStore.SortNewestFirst | server/models/Complaint.js:199 | The sort returns a permutation of its input in which creation times never increase. |
| ComplaintStore.SortNewestFirstStable | server/models/Complaint.js:199 | The sort is stable: the records created at any one instant keep their input order. |
| ComplaintStore.InsertByAgeStable | server/models/Complaint.js:199 | Inserting a record puts it ahead of the records created at the same instant and keeps their order. |
| ComplaintStore.FindAllKeepsStoreOrderOnTies | server/models/Complaint.js:184-199 | When every record was created at the same instant, findAll lists the matching records in store order. |
| ComplaintStore.InsertByAge | server/models/Complaint.js:199 | Inserting one record into a newest-first list keeps it newest-first and adds exactly that record. |
| ComplaintStore.ConsNewestFirst | server/models/Complaint.js:199 | A record at least as new as the head of a newest-first list may be put in front of it. |
| ComplaintStore.SortChronologicalIsReverse | server/models/Complaint.js:199 | On a store kept in creation order, sorting newest-first is reversing. |
| ComplaintStore.FindAllOnChronologicalStore | server/models/Complaint.js:184-199 | On a store kept in creation order, findAll is the reversed in-order filter. |
| ComplaintStore.FilterKeepsChronological | server/models/Complaint.js:186-197 | Filtering a store in creation order leaves it in creation order. |
| ComplaintStore.FindById | server/models/Complaint.js:217-218 | The result is absent exactly when no record has the parsed id. Otherwise it is the first record with that id. |
| ComplaintStore.FindIndex | server/models/Complaint.js:315-316 | The index is -1 exactly when no record has the id. Otherwise it is the first position holding it. |
| ComplaintStore.FindByIdAt | server/models/Complaint.js:217-218 | The first record carrying an id is the one findById returns. |
| ComplaintStore.Create | server/models/Complaint.js:287-294 | Create appends one record. It carries exactly the given fields, id = previous size + 1, and both timestamps equal to the clock. No default status or priority is added. |
| ComplaintStore.CreateKeepsIdsConsecutive | server/models/Complaint.js:288 | While the ids are exactly 1..n, create keeps them so and its id is fresh. |
| ComplaintStore.CreateKeepsChronological | server/models/Complaint.js:287-294 | Creating at a later clock keeps the store in creation order. |
| ComplaintStore.CreateAfterDeleteReusesId | server/models/Complaint.js:288 | After deleting any id other than the last one, the next create reuses an id still present in the store. |
| ComplaintStore.MergeLaws | server/models/Complaint.js:318-322 | An empty patch changes nothing. Merging is idempotent. A status-only patch changes only the status. |
| ComplaintStore.UpdateById | server/models/Complaint.js:315-323 | An absent id gives null and an unchanged store. Otherwise only the first matching record changes: the patch overrides its fields, `updated_at` is refreshed, and every other record is unchanged. |
| ComplaintStore.UpdateKeepsIdsConsecutive | server/models/Complaint.js:315-323 | Updating never changes which ids are present. |
| ComplaintStore.FirstWithIdAfterReplace | server/models/Complaint.js:318-322 | Replacing the first record with an id by one with the same id keeps it the first. |
| ComplaintStore.DeleteById | server/models/Complaint.js:344-348 | An absent id gives false and an unchanged store. Otherwise the result is true and exactly the first matching record is removed, the rest keeping their order. |
| ComplaintSeed.Seed | server/models/Complaint.js:106-161 | The three seeded complaints carry the ids 1, 2, 3, each with its own creation and update time, as each record reads the clock separately. |
| ComplaintSeed.SeedListingOrder | server/models/Complaint.js:106-161 | The unfiltered newest-first listing of the seed depends on those readings: complaints 3, 2, 1 when the creation times strictly increase, and 1, 2, 3 when they coincide. |
| ComplaintStats.Selected | server/models/Complaint.js:406-411 | The statistics see exactly the stored records that satisfy the department filter and the parsed userId filter. |
| ComplaintStats.GetStats | server/models/Complaint.js:403-456 | If a selected record has no status, the zero statistics are returned, because lower-casing an absent status throws and the catch applies. Otherwise total is the number of selected records; pending, inProgress, resolved and rejected are the lengths of the selected records filtered by that status; each byPriority count is the length of the selection filtered by that priority; byDepartment has one key per department present. |
| ComplaintStats.StatusCountIsFilterLength | server/models/Complaint.js:414-417 | The record-by-record count equals the length of the list filtered by that status. |
| ComplaintStats.PriorityCountIsFilterLength | server/models/Complaint.js:420-423 | The record-by-record count equals the length of the list filtered by that priority. |
| ComplaintStats.DepartmentStatusSlots | server/models/Complaint.js:428-441 | With enumerated statuses, a department's pending, resolved and rejected slots are the numbers of its selected records with that status. |
| ComplaintStats.EnumHitsCount | server/models/Complaint.js:438-441 | The loop increments the slot of an enumerated status once per record of the department with that status. |
| ComplaintStats.StatuslessRecordGivesZero | server/models/Complaint.js:440-455 | One selected record without a status is enough to zero every count. |
| ComplaintStats.StatusCountsSumToTotal | server/models/Complaint.js:413-418 | When every selected status is one of the four enum values, pending + inProgress + resolved + rejected = total. |
| ComplaintStats.PriorityCountsSumToTotal | server/models/Complaint.js:419-424 | When every selected priority is Low, Medium, High or Critical, the byPriority counts sum to total. |
| ComplaintStats.DepartmentTotalsSumToTotal | server/models/Complaint.js:428-441 | byDepartment has one entry per distinct department, and the entry totals sum to total. |
| ComplaintStats.DepartmentTotal | server/models/Complaint.js:439 | Each department entry's total is the number of selected records of that department. |
| ComplaintStats.DepartmentInProgressStaysZero | server/models/Complaint.js:440 | The declared inProgress counter of every department entry stays 0. |
| ComplaintStats.DepartmentStrayInProgress | server/models/Complaint.js:440 | The stray "inprogress" key of an entry is NaN exactly when the department has an 'In Progress' record, and is absent otherwise. |
| ComplaintStats.InProgressKey | server/models/Complaint.js:440 | 'In Progress' lower-cased with its first space removed is "inprogress", not the declared key "inProgress". |
| ComplaintStats.IncByClosedForm | server/models/Complaint.js:439-440 | Incrementing a number k times adds k. Incrementing an absent key gives NaN, and NaN stays NaN. |
| Sentiment.PredictSentiment | server/models/Complaint.js:459-476 | The result is always High, Medium or Low. |
| Sentiment.PredictSentimentOfWords | server/models/Complaint.js:459-476 | For lower-case words joined by single spaces, the result is High iff negatives > positives, Low iff positives > negatives, and Medium iff they are equal, counting exact word matches. |
| Sentiment.PredictSentimentIgnoresCase | server/models/Complaint.js:464 | The rule gives the same answer for a text and its lower-cased form. |
| ComplaintController.UserScope | server/controllers/complaintController.js:26-28 | A userId filter is added exactly for a user without an admin id, and it is the token's user id. |
| ComplaintController.DepartmentScope | server/controllers/complaintController.js:29-39 | Only an admin gets a department filter. An explicit department query wins, unchecked. Otherwise the admin's own department is used when the admin exists. |
| ComplaintController.GetComplaints | server/controllers/complaintController.js:12-44 | The list is newest-first and honours the status query. For a user it holds exactly the complaints whose stored userId equals the parsed token id. For an admin with a department in scope it holds exactly that department's complaints. For an anonymous request, and for an admin whose scope is empty (an unknown admin without a department query), it holds every complaint that passes the status query. In every case each complaint appears as often as in the store. |
| ComplaintController.GetComplaint | server/controllers/complaintController.js:47-72 | NotFound exactly when no record has the parsed id, and this is checked before any permission. Forbidden exactly when a user does not own the record, or a known admin is of another department. An unknown admin passes. |
| ComplaintController.CreateComplaint | server/controllers/complaintController.js:75-96 | Exactly one complaint is appended. It has the body's fields, the image only when truthy, and the token's user id as text. Its author is the user's name, or "User <id>" for an unknown user. It has no status, sentiment, priority or assignee. |
| ComplaintController.UpdateComplaint | server/controllers/complaintController.js:99-119 | NotFound exactly for a missing id. Success exactly when the admin exists and has the complaint's department, else Forbidden with the store unchanged. On success only the status and `updated_at` of that one record change. |
| ComplaintController.DeleteComplaint | server/controllers/complaintController.js:122-148 | NotFound exactly for a missing id. Forbidden exactly when a user does not own the record, or the admin is unknown or of another department. The ownership message takes precedence. Otherwise exactly that record is removed. |
| ComplaintController.GetComplaintStats | server/controllers/complaintController.js:151-177 | The statistics select exactly the complaints the listing shows for the same identity and department query. When every listed complaint has a status, total is the listing's length and each status and priority count is the number of listed complaints with that status or priority; otherwise every count is zero. |
| ComplaintController.StatsAgreeWithListing | server/controllers/complaintController.js:151-177 | The counts the statistics compute over their selection equal the counts over the listing in the same scope, which holds the same complaints as often. |
| ComplaintController.GetUserComplaints | server/controllers/complaintController.js:180-196 | The list is newest-first and holds exactly the complaints whose stored userId equals the parsed id and that pass the status query, each as often as in the store. |
| ComplaintController.GetDepartmentComplaints | server/controllers/complaintController.js:199-221 | NotFound exactly when the admin is unknown. Otherwise the list holds exactly the complaints of the admin's own department that pass the status query, each as often as in the store. |
| ComplaintController.UpdateThenRead | server/controllers/complaintController.js:99-119 | After a successful update, the same admin reads the complaint back with the new status. |
| ComplaintController.DeleteThenRead | server/controllers/complaintController.js:122-148 | In any store where no two complaints share an id, a deleted complaint reads as NotFound afterwards for anyone. |
| ComplaintController.CreatedComplaintReadableByOwner | server/controllers/complaintController.js:75-96 | When the new id is fresh, the author reads the new complaint back by its id. |
| ComplaintController.CreatedComplaintNotListedForOwner | server/controllers/complaintController.js:180-196 | A complaint created through the API is missing from its author's "my complaints" list and from the author's scoped listing. |
| ComplaintController.CreatedComplaintZeroesStats | server/controllers/complaintController.js:151-177 | Once a created complaint falls in the statistics' scope, every count is zero, because it has no status. |
| ComplaintController.AdminTokenRefusedByUserCheck | server/controllers/complaintController.js:59-61 | An admin token passes the any-auth guard with user id "token", so reading or deleting a complaint not owned by "token" is Forbidden by the user check. |
| ComplaintController.UnknownAdminReadsButCannotChange | server/controllers/complaintController.js:64-68 | An admin id that names no admin may read any complaint but is refused update and delete. |
| ComplaintController.AdminListsAnyDepartment | server/controllers/complaintController.js:31-32 | An admin listing with a department query gets that department's complaints, whatever the admin's own department. |
| ComplaintController.StatsTotalMatchesListing | server/controllers/complaintController.js:151-177 | When every selected complaint has a status, the statistics total equals the length of the corresponding listing. |
| ComplaintController.SeededOwnerCannotRead | server/controllers/complaintController.js:59-61 | A user whose token names the owner of a stored complaint is still refused it with "Access denied", because the token's user id is text and the stored owner a number; in particular user 1 cannot read seeded complaint 1 (seeded at server/models/Complaint.js:106-161). |
| UserStore.Seed | server/models/User.js:67-92 | Two active users with ids 1 and 2 and the seeded password, each stamped with its own clock readings. |
| UserStore.WithoutPassword | server/models/User.js:211 | Stripping the password changes nothing else. |
| UserStore.FindAll | server/models/User.js:107 | Every user in the same order, none carrying a password; putting the stored password back gives the stored record. |
| UserStore.FindById | server/models/User.js:127-128 | Absent exactly when no user has the parsed id. Otherwise a stored user with that id, without password. |
| UserStore.FindByIdAtFirst | server/models/User.js:127-128 | The user returned is the first one with that id, without its password. |
| UserStore.FindByEmail | server/models/User.js:150-151 | Absent exactly when no user has that exact e-mail. Otherwise the first user with it, without password. |
| UserStore.FindByEmailIffExists | server/models/User.js:293 | emailExists holds exactly when findByEmail finds a user. |
| UserStore.Create | server/models/User.js:172-180 | Appends one user with id = size + 1 and both timestamps, and returns it without password. |
| UserStore.UpdateById | server/models/User.js:203-212 | An absent id gives null and no change. Otherwise only the first matching user is merged with the patch and refreshed, and it is returned without password. |
| UserStore.DeleteById | server/models/User.js:233-237 | True exactly when the id is present, and then exactly the first matching user is removed. Otherwise false with no change. |
| UserStore.ValidateCredentials | server/models/User.js:267-275 | Succeeds exactly when the first active user with that e-mail has that password, and returns that user without password. |
| UserStore.ValidateCredentialsNeedsActive | server/models/User.js:267 | An e-mail whose users are all inactive never signs in. |
| AdminStore.SeedUnique | server/models/Admin.js:71-132 | The five seeded admins have ids 1..5 and pairwise distinct e-mails and department ids. |
| AdminStore.SeedDepartmentsVersusSharedTable | server/models/Admin.js:71-132 | Two seeded department names are in the shared table. The three at lines 102, 113 and 124 are not. |
| AdminStore.DepartmentNameDiffers | shared/api.js:6-13 | No shared department is named like those three seeded departments. |
| AdminStore.WithoutPassword | server/models/Admin.js:147 | Stripping the password changes nothing else. |
| AdminStore.FindAll | server/models/Admin.js:147 | Every admin in the same order, without password. |
| AdminStore.FindById | server/models/Admin.js:167-168 | Absent exactly when no admin has the parsed id. Otherwise the first admin with it, without password. |
| AdminStore.FindByEmail | server/models/Admin.js:190-191 | Absent exactly when no admin has that e-mail. Otherwise the first admin with it, without password. |
| AdminStore.FindByDepartment | server/models/Admin.js:213-215 | Exactly the admins of that department, without passwords. |
| AdminStore.FindByDepartmentKeepsOrder | server/models/Admin.js:213-215 | Selecting the department and removing passwords commute: the result is the password-free store filtered by department, in store order and with each admin as often as there. |
| AdminStore.ValidateCredentials | server/models/Admin.js:247-255 | Succeeds exactly when the first active admin with that e-mail has that password, and returns it without password. |
| AdminStore.ValidateCredentialsAt | server/models/Admin.js:247-255 | Once the first active admin with the e-mail is fixed, the check succeeds exactly when that admin's password is the one given. It then returns that admin. |
| AdminStore.SeedCredentials | server/models/Admin.js:71-132 | Each seeded admin signs in with exactly the password "admin123". |
| AdminStore.GetDepartments | server/models/Admin.js:277-284 | The departments listed are the distinct departments of the admins, position by position. Each occurs once, every admin's department is listed, and each entry carries the departmentId of the first admin in it. |
| AdminStore.GetDepartmentsInFirstAdminOrder | server/models/Admin.js:277 | Departments come in the order in which their first admin appears in the store. |
| Common.DistinctInFirstOccurrenceOrder | server/models/Admin.js:277 | De-duplication through a Set lists the values in the order of their first occurrence. |
| Strings.ParseId | server/models/Complaint.js:217 | A string that starts with a decimal digit and no "0x" reads as a number; one without any decimal digit reads as NaN. |
| Strings.ParseIdOfNatToString | server/models/Complaint.js:217 | Reading the decimal numeral of n gives n back. |
| Strings.ParseIdSkipsLeadingSpace | server/models/Complaint.js:217 | Leading white space does not change what an id reads as. |
| Strings.ParseIdOfSigned | server/models/Complaint.js:217 | "+n" reads as n; "-n" reads as a negative number, or as 0 when n is 0. |
| Strings.ParseIdOfHex | server/models/Complaint.js:217 | "0x" or "0X" followed by hexadecimal digits reads as their base-16 value; the bare prefix reads as NaN. |
| AdminStore.DepartmentInfoOf | server/models/Admin.js:279-283 | A department's entry carries the departmentId of its first admin. |
| AdminStore.DepartmentsOf | server/models/Admin.js:277 | The department of every admin, in order. |
| AdminStore.GetDepartmentByEmail | server/models/Admin.js:312-316 | Null exactly when no admin has the e-mail. Otherwise the department and departmentId of the first admin with it. |
| AdminStore.GetDepartmentByEmailIffExists | server/models/Admin.js:338 | emailExists holds exactly when getDepartmentByEmail finds one. |
| AuthController.LoginUser | server/controllers/authController.js:11-25 | Unauthorized exactly when the credentials do not validate. Otherwise the password-free user with a token built from the user's id. |
| AuthController.TokenForIdentifies | server/controllers/authController.js:22 | The login token gives back, through the middleware, the decimal text of the user's id, which parses to that id. |
| AuthController.GetUserProfile | server/controllers/authController.js:46-56 | NotFound exactly when no user has the parsed id. Otherwise that user without password. |
| AuthController.LoginThenProfile | server/controllers/authController.js:11-56 | While ids are unique, the token a login returns fetches the same user's profile. |
| AuthController.NewUserFields | server/controllers/authController.js:37 | A registered user has the given name, e-mail and password and no isActive flag. |
| AuthController.RegisterUser | server/controllers/authController.js:28-43 | Conflict with no change exactly when the e-mail exists. Otherwise exactly one user is appended and returned with a token for its id. |
| AuthController.RegisterKeepsEmailsUnique | server/controllers/authController.js:32-37 | Registration keeps the stored e-mails distinct. |
| AuthController.RegisteredUserCannotLogIn | server/controllers/authController.js:37 | A user created by registration has no isActive flag, so logging in with their credentials is Unauthorized. |
| AuthController.ProfilePatch | server/controllers/authController.js:70-72 | The patch holds only the truthy fields, the name trimmed and the e-mail lower-cased and trimmed. |
| AuthController.UpdateUserProfile | server/controllers/authController.js:59-81 | Conflict exactly when a supplied e-mail differs from the current one as sent and exists as sent. NotFound, before any change, when the user is absent. Otherwise only that user is patched. |
| AuthController.UpdateUserProfileCanDuplicateEmail | server/controllers/authController.js:64-72 | An e-mail that differs from every stored one only in case or surrounding spaces passes the check and is stored as another user's e-mail. |
| AuthController.UpdateUserProfileChecked | server/controllers/authController.js:64-72 | The corrected update checks the e-mail in the form it is stored. Otherwise it behaves as the original. |
| AuthController.ReplaceKeepsEmailsUnique | server/controllers/authController.js:64-72 | Replacing one record keeps e-mails unique if the new e-mail is the old one or belongs to nobody. |
| AuthController.UpdateUserProfileCheckedKeepsEmailsUnique | server/controllers/authController.js:64-72 | The corrected update keeps the stored e-mails distinct. |
| Token.GenerateUserToken | server/utils/token.js:6-8 | A user token starts with "token_". |
| Token.GenerateAdminToken | server/utils/token.js:10-12 | An admin token starts with "admin_token_". |
| Token.ParseUserToken | server/utils/token.js:15-19 | A parsed id is non-empty and has no '_'. Without the "token_" prefix the result is null. |
| Token.ParseAdminToken | server/utils/token.js:21-25 | A parsed id is non-empty and has no '_'. Without the "admin_token_" prefix the result is null. |
| Token.ParseUserTokenOfGenerated | server/utils/token.js:6-19 | For a non-empty id without '_', parsing a generated user token gives the id back, and isValidToken accepts it. |
| Token.ParseAdminTokenOfGenerated | server/utils/token.js:10-25 | For a non-empty id without '_', parsing a generated admin token gives the id back, and isValidToken accepts it. |
| Token.ParsersRefuseOtherKind | server/utils/token.js:16-22 | The user parser refuses admin tokens and the admin parser refuses user tokens. |
| Token.SeparatorInIdIsLost | server/utils/token.js:6-19 | An id containing '_' is cut at the separator: "a_b" comes back as "a". |
| Token.UserTokenParts | server/utils/token.js:6-8 | A user token splits on '_' into "token", the id and the time. |
| Token.AdminTokenParts | server/utils/token.js:10-12 | An admin token splits on '_' into "admin", "token", the id and the time. |
| Token.PrefixesExclusive | server/utils/token.js:16-22 | No token carries both prefixes. |
| Token.Field | server/utils/token.js:17-18 | A field is present exactly when it exists and is non-empty. |
| Token.ExtractToken | server/utils/token.js:47-52 | The token is present exactly when the header starts with "Bearer ", and it is the rest of the header. |
| Token.ExtractTokenOfBearer | server/utils/token.js:47-52 | Extracting from "Bearer " + t gives t. |
| AuthMiddleware.GetUserIdFromToken | server/middleware/auth.js:8-16 | Without a bearer header there is no id. An id found is non-empty and has no '_'. |
| AuthMiddleware.GetAdminIdFromToken | server/middleware/auth.js:18-29 | An id exists only for a bearer token starting "admin_token_", and it is non-empty with no '_'. |
| AuthMiddleware.RequireAuth | server/middleware/auth.js:31-47 | Rejects with 401 exactly when no user id is extracted. Otherwise it admits with that user id only. |
| AuthMiddleware.RequireAdminAuth | server/middleware/auth.js:49-65 | Rejects with 401 exactly when no admin id is extracted. Otherwise it admits with that admin id only. |
| AuthMiddleware.RequireAnyAuth | server/middleware/auth.js:67-85 | Rejects with 401 exactly when both extracted ids are null. Otherwise both are set. |
| AuthMiddleware.OptionalAuth | server/middleware/auth.js:87-101 | Always admits, with both extracted ids. |
| AuthMiddleware.IsAuthenticatedIffUserOrAdmin | server/middleware/auth.js:105-107 | isAuthenticated holds exactly when isUser or isAdmin holds. |
| AuthMiddleware.GuardsAdmitAuthenticated | server/middleware/auth.js:31-85 | Each guard admits only identities of its own kind. |
| AuthMiddleware.NoBearerRejected | server/middleware/auth.js:9-11 | Without a "Bearer " header every guard rejects. |
| AuthMiddleware.UserTokenIdentity | server/middleware/auth.js:8-85 | A user token yields exactly its user id. The admin guard rejects it. |
| AuthMiddleware.AdminTokenIdentity | server/middleware/auth.js:13-14 | An admin token yields its admin id, and also the user id "token", so the user guard admits it. |
| ErrorHandler.NewValidationError | server/middleware/errorHandler.js:56-61 | The error is named ValidationError and keeps its message. |
| ErrorHandler.NewUnauthorizedError | server/middleware/errorHandler.js:63-68 | The error is named UnauthorizedError, with message "Unauthorized" by default. |
| ErrorHandler.NewForbiddenError | server/middleware/errorHandler.js:70-75 | The error is named ForbiddenError, with message "Forbidden" by default. |
| ErrorHandler.NewNotFoundError | server/middleware/errorHandler.js:77-82 | The error is named NotFoundError, with message "Not found" by default. |
| ErrorHandler.HandleError | server/middleware/errorHandler.js:8-37 | The status is 500 exactly for an unknown error name. The body is never a success and carries no data or message. In development, and for a validation error, the error text is the error's own message. |
| ErrorHandler.CustomErrorsMapToTheirStatus | server/middleware/errorHandler.js:12-28 | Each custom error class maps to its own status: 400, 401, 403 or 404. |
| ErrorHandler.ProductionHidesMessage | server/middleware/errorHandler.js:16-34 | Outside development, a non-validation error's reply does not depend on its message. |
| ErrorHandler.ProductionTexts | server/middleware/errorHandler.js:16-34 | Outside development an unauthorized, forbidden or not-found error gets its fixed text whatever its message, and an error with any other unknown name is a 500 "Internal server error". |
| ErrorHandler.DefaultMessagesMatchProductionTexts | server/middleware/errorHandler.js:16-34 | An unauthorized, forbidden or not-found error raised with its default message (errorHandler.js:63-82) reads the same in development and outside it. |
| ErrorHandler.NotFoundHandler | server/middleware/errorHandler.js:39-47 | The reply is a 404 whose error text is the fixed prefix followed by the URL. |
| Validation.ValidateUserRegistration | server/middleware/validation.js:8-37 | Passes exactly when all four fields are truthy, the e-mail is valid, the password has at least six characters and equals its confirmation. A refusal names the first failing check in the order fields, e-mail, password length, confirmation. On success the name is trimmed and the e-mail lower-cased. |
| Validation.RegistrationAcceptsBlankName | server/middleware/validation.js:12-33 | A name of spaces passes and is sanitised to "", which the same validator then refuses. |
| Validation.ValidEmailSanitises | server/middleware/validation.js:30 | A valid e-mail has no spaces, so trimming after lower-casing changes nothing and the result stays valid. |
| Validation.ValidateLogin | server/middleware/validation.js:39-77 | Passes exactly when e-mail and password are truthy and the e-mail is valid. The two error texts are distinguished. The e-mail is lower-cased. |
| Validation.ValidateLoginIdempotent | server/middleware/validation.js:39-77 | Validating a sanitised login body again changes nothing. |
| Validation.ValidateComplaintCreation | server/middleware/validation.js:79-105 | A missing field is refused first, then a short text, then an invalid department e-mail, each with its own text. The body passes exactly when the trimmed text has at least ten characters and the department e-mail is valid. The text, category and department are then trimmed and the e-mail lower-cased. |
| Validation.ValidateComplaintCreationIdempotent | server/middleware/validation.js:98-101 | When category and department are not blank, re-validating the sanitised body accepts it unchanged. |
| Validation.BlankCategoryPassesOnce | server/middleware/validation.js:83-101 | A category of spaces passes, is trimmed to "", and the sanitised body is then refused. |
| Validation.ValidateComplaintUpdate | server/middleware/validation.js:107-123 | A missing status is refused with the required-status text, and a present one that is refused gets the invalid-status text. A pass returns the given status. |
| Validation.ValidateComplaintUpdateAcceptsOfferedStatuses | server/middleware/validation.js:111-119 | Passes exactly for the three offered statuses. 'Rejected' is refused. |
| Validation.ValidateComplaintQuery | server/middleware/validation.js:125-140 | Passes exactly when a present limit reads as an integer in 1..100 and a present offset reads as an integer >= 0. A bad limit is reported before a bad offset, each with its own text. |
| Validation.ValidateComplaintQueryOfNumbers | server/middleware/validation.js:129-137 | For decimal numbers this is exactly 1 <= limit <= 100, and no query at all passes. |
| Validation.ReadIntegerOfNatToString | server/middleware/validation.js:129-137 | A decimal numeral reads back as its value. |
| Validation.ValidateIdParameter | server/middleware/validation.js:142-151 | Passes exactly when the id has a non-space character, and returns it unchanged. |
| SharedApi.TablesAgree | shared/api.js:6-65 | Six departments with distinct ids, names and e-mails. Every admin names a department whose e-mail and id match. |
| SharedApi.OptionListsOmitValues | shared/api.js:68-69 | The status list omits 'Rejected' and the sentiment list omits 'Critical'. |
| SharedApi.ValidateEmailMatchesPattern | shared/api.js:72-75 | The e-mail check holds exactly when the address is non-space text, one '@' with a non-empty part before it, and a '.' inside the part after it. |
| SharedApi.ValidEmailMatches | shared/api.js:72-75 | A valid e-mail splits as the pattern describes. |
| SharedApi.MatchingEmailIsValid | shared/api.js:72-75 | Any address built as the pattern describes is valid. |
| SharedApi.ValidateEmailIgnoresCase | shared/api.js:72-75 | Lower-casing does not change validity. |
| SharedApi.KeepTruthy | shared/api.js:82-89 | A value is kept exactly when it is truthy. |
| SharedApi.CreateResponse | shared/api.js:82-89 | The response always carries success. It carries data as given, and message or error exactly when the argument is truthy. |
| SharedApi.CreateComplaintResponse | shared/api.js:102-111 | The same rule for complaint responses. |
| UserDashboard.DepartmentsAreShared | client/pages/UserDashboard.jsx:6-13 | The form's table is the shared department table without the ids. |
| UserDashboard.PredictCategory | client/pages/UserDashboard.jsx:16-36 | The predicted category is always one of the six table names. |
| UserDashboard.PredictCategoryIsFirstRule | client/pages/UserDashboard.jsx:16-36 | The classifier is first-match-wins over the five keyword rules in the order water, roads, health, power, sanitation, defaulting to General Administration. |
| UserDashboard.PredictCategoryIgnoresCase | client/pages/UserDashboard.jsx:17 | A text and its lower-cased form get the same category. |
| UserDashboard.WaterWordsWin | client/pages/UserDashboard.jsx:19-21 | Any text with "water", "supply" or "quality" goes to Water Management, whatever else it says. |
| UserDashboard.WaterLeakExample | client/pages/UserDashboard.jsx:19-21 | "Water leak on Main St for 3 days" goes to Water Management. |
| UserDashboard.FallbackUnreachable | client/pages/UserDashboard.jsx:81 | The table always has an entry for the prediction, so the `departments[0]` fallback never applies. |
| UserDashboard.HandleTextChange | client/pages/UserDashboard.jsx:79-90 | The form gets the text, the predicted category as category and department, and that department's e-mail. Other fields are kept. |
| UserDashboard.HandleDepartmentChange | client/pages/UserDashboard.jsx:92-101 | An unknown name leaves the form unchanged. A known one sets department and its e-mail and nothing else. |
| UserDashboard.HandlersKeepPaired | client/pages/UserDashboard.jsx:79-101 | Both handlers leave the department and e-mail as an entry of the table. |
| UserDashboard.HandleSubmit | client/pages/UserDashboard.jsx:110-134 | Refused exactly when the text is all spaces. Otherwise the trimmed text is sent with the form's department, the stored name or "Anonymous User", the stored id or 1, and the location and contact number or "" when unset. |
| UserDashboard.ShortTextPassesFormNotServer | client/pages/UserDashboard.jsx:113-134 | A text of one to nine characters after trimming is sent by the form and refused by the server's creation validator. |
| AdminDashboard.DepartmentComplaints | client/pages/AdminDashboard.jsx:159-165 | Empty without an admin. Otherwise exactly the complaints of the admin's department, each as often as in the list, in their original order. |
| AdminDashboard.FilteredComplaints | client/pages/AdminDashboard.jsx:168-178 | Exactly the department's complaints that pass search, status and priority, each as often as in the department list, as an order-preserving subsequence. |
| AdminDashboard.SearchIgnoresCase | client/pages/AdminDashboard.jsx:170-172 | Search matches the same complaints for a term and its lower-cased form. |
| AdminDashboard.EmptySearchMatchesAll | client/pages/AdminDashboard.jsx:170-172 | The empty term matches every complaint. |
| AdminDashboard.ClearFilters | client/pages/AdminDashboard.jsx:394-398 | Clear Filters empties the search and resets both drop-downs to their wildcards. |
| AdminDashboard.ClearedViewShowsDepartment | client/pages/AdminDashboard.jsx:173-174 | After Clear Filters the filtered list is the whole department list. |
| AdminDashboard.HandleStatusUpdate | client/pages/AdminDashboard.jsx:186-192 | Records with the given id get the new status. All other records are unchanged, and the length is kept. |
| AdminDashboard.StatusUpdateChangesOnlyStatus | client/pages/AdminDashboard.jsx:186-192 | Only the status changes, each record keeping its position and every other field. Applying the update twice equals applying it once. |
| AdminDashboard.StatusUpdateKeepsDepartmentList | client/pages/AdminDashboard.jsx:186-192 | The department list keeps its length across an update. |
| AdminDashboard.GetStats | client/pages/AdminDashboard.jsx:210-218 | The counts are over the department list, not the filtered one: pending, inProgress, resolved and high are the lengths of that list filtered by status or sentiment. pending + inProgress + resolved <= total, with equality when every status is one of the three, and high <= total. |
| AdminDashboard.CountStatusIsFilterLength | client/pages/AdminDashboard.jsx:212-214 | The record-by-record count equals the length of the list filtered by that status. |
| AdminDashboard.CountSentimentIsFilterLength | client/pages/AdminDashboard.jsx:215 | The record-by-record count equals the length of the list filtered by that sentiment. |
| AdminDashboard.StatsIgnoreView | client/pages/AdminDashboard.jsx:210-218 | The filtered list is never longer than the total the counts report. |
| AdminContext.LoginAdmin | client/contexts/AdminContext.jsx:59-79 | Succeeds exactly when some entry matches both e-mail and password. It signs in as the first such entry, with its key as id. On failure the state is unchanged and the error is "Invalid credentials". |
| AdminContext.MatchIndex | client/contexts/AdminContext.jsx:61-63 | The first entry matching both e-mail and password, or -1 exactly when no entry matches. |
| AdminContext.EveryEntrySignsIn | client/contexts/AdminContext.jsx:59-75 | Each entry's own e-mail and password sign in as exactly that entry. |
| AdminContext.EmailsDistinct | client/contexts/AdminContext.jsx:6-43 | The credentials' e-mails are pairwise distinct. |
| AdminContext.LogoutAdmin | client/contexts/AdminContext.jsx:81-85 | Logout always leaves no admin and not authenticated. |
| AdminContext.Restore | client/contexts/AdminContext.jsx:49-57 | A saved admin is restored as signed in. Without one the state is unchanged. |
| AdminContext.TransitionsKeepConsistent | client/contexts/AdminContext.jsx:72-85 | Login, logout and restore keep "authenticated exactly when an admin is set". |
| AdminContext.AvailableDepartments | client/contexts/AdminContext.jsx:92-96 | One option per entry, in entry order, with the key as id, the department as name and the entry's e-mail. |
| AdminContext.AvailableDepartmentsAreShared | client/contexts/AdminContext.jsx:92-96 | The options are exactly the shared department table. |
| AdminContext.CredentialsAgreeWithAdminUsers | client/contexts/AdminContext.jsx:6-43 | The entries agree one for one with the shared admin table: key, e-mail, password, department and name. |
| AdminContext.ServerAdminsShareOnePassword | server/models/Admin.js:71-132 | Every server admin has the password "admin123", and none is in General Administration. |
| AdminContext.ServerPasswordSignsInOnlyAsGeneral | client/contexts/AdminContext.jsx:6-43 | On the client "admin123" signs in only as General Administration, so no department shares its password between client and server. |
| AdminContext.OnlyGeneralHasServerPassword | client/contexts/AdminContext.jsx:37-42 | The only entry with the password "admin123" is General Administration. |

## Left out

- The database branch of every model, the model definitions and the choice of backend. These depend on an ORM library outside the model. Only the in-memory branches are modelled, and the ORM-only defaults (such as the Pending status) do not apply to them.
- Every `catch` that logs and returns a fallback. The one catch whose fallback a reachable input triggers, getStats's zero statistics, is modelled.
- Express plumbing: the server entry point, the route files, the response helpers, `asyncHandler`, and status codes written through `res`.
- `createAuthResponse`, `createDemoResponse` and `validateFileUpload`. They are not used by the modelled handlers and state no rule.
- The admin controller, the upload controller, the Python sentiment service and the client's network layer. They are thin wrappers, a mock upload built from the clock, a foreign ML model, and network I/O, with no rule of their own.
- `findByUserId` and `findByDepartment` of the complaint model. No modelled handler calls them, and each is findAll with one filter.
- Clocks and date formatting. `now` is a parameter, and `submittedAt` on the client is plain text.
- ComplaintStore.Create: the source reads `new Date()` once for `created_at` and once for `updated_at` in the same object literal. The model takes one reading for both, so it promises equal stamps where the source may differ by a clock tick. UserStore.Create is treated the same way. The seeds of both stores take a separate reading for every stamp.
- The admin dashboard's sample complaints, React rendering, localStorage reads and writes, redirects, the form reset after submission, and the `setTimeout` delay before a status update.
- The generated token's time part is `NatToString(now)`, which stands for `Date.now()`.
- Case mapping and white space are ASCII only. `Strings.Lower` maps A-Z, and `Strings.IsSpace` covers space, tab, line feed, vertical tab, form feed and carriage return.
- The e-mail regular expression is characterised structurally, as the pattern's parts, not by a regex engine.
- Validation.ValidateComplaintQuery: reads limit and offset as an optional minus sign followed by decimal digits only. `parseInt`'s leading white space, hexadecimal prefix and NaN-comparison corner cases are not modelled.
- Validation.ReadIntegerOfNatToString: states the round trip for decimal numerals only, for the same reason.
- Passwords are compared as plain strings, as the source does; hashing is not modelled.
- Validation.ValidateUserRegistration: the six-character password minimum counts Dafny characters, while JavaScript's `.length` counts UTF-16 code units, so a password with characters outside the Basic Multilingual Plane can be long enough in the source and too short here.
- Validation.ValidateComplaintCreation: the ten-character text minimum counts characters, not UTF-16 code units, for the same reason.
- ComplaintStats.GetStats: byDepartment is modelled as a map that starts empty. A JavaScript object literal also inherits keys such as "constructor", "toString" and "__proto__"; a department with such a name finds an inherited value instead of a fresh entry, and that behaviour is not modelled.
- Strings.ParseId: reads unbounded integers; `parseInt`'s loss of precision beyond 2^53 and its exponent notation for very large values are not modelled, and only ASCII white space is skipped.
- The mapping from a JavaScript error object to a name is left abstract: `ErrorHandler.Error` is a name and a message.

## Findings

| source | as written | input that shows it | evidently intended | confidence | as-written member | corrected member |
|---|---|---|---|---|---|---|
| server/controllers/authController.js:64-72 | The "e-mail already in use" test compares the e-mail as sent, but the stored value is the lower-cased, trimmed e-mail. | A store with users 1 ("a@x.io") and 2 ("b@x.io"); user 1 updates their e-mail to "B@X.IO". The raw value differs from user 1's and exists nowhere, so it passes, and "b@x.io" is stored for both users. | The uniqueness test uses the e-mail in the form it will be stored, so e-mails stay unique. | not executed | AuthController.UpdateUserProfileCanDuplicateEmail | AuthController.UpdateUserProfileCheckedKeepsEmailsUnique |
