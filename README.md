# University student portal: stores, login and page logic

This project models the logic of a university student portal: its in-memory stores, its login
decision and the list processing inside its pages. The pages and stores are written in
TypeScript/React. The model states and proves the properties that logic promises.

- **Student store** (`lib/data.ts`): a module-level array of student records.
  - Looked up by id.
  - Overwritten in place by id.
  - Appended to under the id "one past the last id".
  - Modelled as class `StudentStore.Store`, with the invariant `WellNumbered`: ids are decimal
    numbers that increase along the array.
- **Profile store** (`frontend/lib/data-service.ts`): an append-only array whose last element
  is the current profile, with a guest profile while it is empty (`ProfileStore.Database`).
- **Login** (`frontend/app/login/page.tsx`): `authenticateUser` and the redirect that
  `handleSubmit` picks (`Login`).
  - The admin and student lists are parameters.
  - A field a record lacks is `None`, which equals no string, just as `undefined` does in the
    source.
- **Registration office** (`frontend/app/admin/registration-office/page.tsx`): the admin list
  of student records (`RegistrationOffice.Office`).
  - Editing goes through a modal.
  - A saved "NEW-" record is numbered one past the largest parsed id, never below 1001.
  - A saved existing record replaces every entry with its id.
  - Deleting removes every entry with the id.
  - A search term narrows the table.
- **Course registration** (`frontend/app/dashboard/academics/registration/page.tsx`): the
  schedule, the running credit total and the add modal (`CourseRegistration.Registration`).
  - The class invariant `Valid` is kept by every handler. It says that codes on the schedule are
    distinct, that the total is the sum of the scheduled credits, and that the missing-prerequisite
    list belongs to the selected course.
- **Late add/drop** (`frontend/app/dashboard/requests/add-drop/page.tsx`):
  - course lookup with catalogue-before-schedule precedence;
  - the capacity test;
  - the drop options;
  - the request form (`AddDrop.RequestForm`).
- **Clearance** (`frontend/app/dashboard/requests/clearance/page.tsx`): cleared count,
  completion, hold, and the banner shown with hold > complete > pending precedence (`Clearance`).
- **Enrollment** (`frontend/app/dashboard/enrollment/page.tsx`):
  - the credit sum computed with `reduce`;
  - the status counts;
  - the de-duplicated semester list;
  - the combined search and semester filter (`Enrollment`).
- **Events** (`frontend/app/dashboard/events/page.tsx`): the search filter, and
  `groupEventsByMonth`. The latter is method `Events.GroupEventsByMonth`: a loop that creates a
  month's group the first time the month is seen and pushes each event onto its group.
  - The keys are returned in creation order.
  - The groups are returned as a map.

The shared modules:

- `Seqs` models `find`/`findIndex`, `filter`, `some`, the `reduce` sum and the
  first-occurrence order of a `Set`. Filter, sum and de-duplication are defined from the end of
  the sequence, one element at a time, like the source's left-to-right callbacks.
- `Text` models ASCII lower-casing, `includes`, `startsWith`, and decimal printing and parsing of
  natural numbers.

## Model

| member | source | states |
|---|---|---|
| StudentStore.Store.constructor | lib/data.ts:13-21 | the store starts with the seven seed records |
| StudentStore.SeedIsWellNumbered | lib/data.ts:13-21 | the seed ids parse to 1001..1007 in order, and the first `addStudent` on the seed hands out "1008" |
| StudentStore.WellNumberedIdsUnique | lib/data.ts:13-21 | in a well-numbered array no two records share an id |
| StudentStore.Store.GetStudentById | lib/data.ts:27-29 | the result is the first record with the id; it is nothing exactly when no record has the id |
| StudentStore.Store.UpdateStudent | lib/data.ts:31-38 | returns true exactly when some record has the id; then only the first such record is overwritten and a lookup finds the new record; otherwise the array is unchanged; the array stays well numbered |
| StudentStore.ReplaceKeepsWellNumbered | lib/data.ts:32-35 | overwriting a record with one that keeps its id keeps the array well numbered |
| StudentStore.Store.AddStudent | lib/data.ts:40-47 | appends exactly one record at the end, with id `NextId` of the old array and every other field of the input; a well-numbered array stays well numbered and a lookup of the new id finds the new record |
| StudentStore.NextIdOfEmpty | lib/data.ts:42-43 | an empty store numbers its first record "1001" |
| StudentStore.NextIdExceedsAll | lib/data.ts:42-43 | in a well-numbered array the next id parses to a number above every stored id |
| StudentStore.NextIdIsFresh | lib/data.ts:42-45 | in a well-numbered array no record has the next id yet |
| StudentStore.AddKeepsWellNumbered | lib/data.ts:42-45 | appending under the next id keeps the array well numbered |
| StudentStore.NextId | lib/data.ts:42-43 | the next id parses to one more than the last record's id (than 1000 for an empty array) and has no leading zero, which fixes its spelling as `toString` gives it; it is "NaN" when the last id does not parse |
| Text.ParseIntOfDecimal | lib/data.ts:43 | parsing the decimal printing of a number gives back that number |
| Text.CanonicalDecimal | lib/data.ts:43 | a digit string without a leading zero is exactly the decimal printing of the number it parses to, so `toString`'s spelling is the only one with that value and no leading zero |
| StudentStore.GetAdminCredentials | lib/data.ts:49-52 | both credentials are non-empty, and the user name is no seed student's id |
| Login.StoreAdminLogsIn | lib/data.ts:49-52 | used as the only admin entry (a pairing the program does not make, since the login page reads the back end's lists), the fixed credentials "admin" / "admin123" log in as admin and redirect to the admin hub, whatever the student list |
| ProfileStore.StudentIdFor | frontend/lib/data-service.ts:29 | the generated id is "S" followed by six digits that parse to the draw plus 100000, within [100000, 999999] |
| ProfileStore.StudentIdInjective | frontend/lib/data-service.ts:29 | distinct draws give distinct ids |
| ProfileStore.NewProfileShape | frontend/lib/data-service.ts:33-43 | a new profile copies name, e-mail and program, majors in its program, is "Active" with advisor "Dr. Placeholder", and differs from the guest profile |
| ProfileStore.Database.constructor | frontend/lib/data-service.ts:19 | the database starts empty |
| ProfileStore.Database.CreateStudentProfile | frontend/lib/data-service.ts:26-51 | appends exactly the new profile, and `getStudentProfile` then returns it |
| ProfileStore.Database.GetStudentProfile | frontend/lib/data-service.ts:58-74 | an empty database yields the guest profile (id "N/A", status "Inactive"); otherwise the last profile |
| Login.AdminCheck | frontend/app/login/page.tsx:50-52 | the admin check passes exactly when the first admin with the username has the password |
| Login.StudentCheck | frontend/app/login/page.tsx:59-60 | the student check passes exactly when the first student with the id has the password |
| Login.Authenticate | frontend/app/login/page.tsx:41-71 | admin success exactly on an admin match, with no redirect id; student success exactly on a student match without an admin match, redirecting to the username; otherwise failure labelled with the selected role |
| Login.FirstAdminDecides | frontend/app/login/page.tsx:50 | a later admin entry with the same username and the right password does not make an admin login succeed when the first entry's password is wrong |
| Login.AdminTakesPrecedence | frontend/app/login/page.tsx:54-56 | an admin success is the same whatever the student list |
| Login.RoleOnlyLabelsFailure | frontend/app/login/page.tsx:62-70 | the selected role changes neither success nor the resolved role; it only labels a failure |
| Login.BackendShapedListsRejectAll | frontend/app/login/page.tsx:41-71 | with admins that carry no username and students that carry no password, as the back end's records are shaped, no login succeeds and the page stays put |
| Login.HandleSubmit | frontend/app/login/page.tsx:86-95 | the admin hub exactly on an admin match; the student's profile page exactly on a student match without an admin match; no redirect exactly when both fail |
| Login.RedirectTarget | frontend/app/login/page.tsx:88-95 | no redirect exactly on failure; the admin hub exactly on an admin success; for a student the profile page of the redirect id, or of the username when the id is missing or empty |
| RegistrationOffice.Office.constructor | frontend/app/admin/registration-office/page.tsx:187-191 | the page starts with the five initial records, an empty search and no modal |
| RegistrationOffice.Office.SubmitForm | frontend/app/admin/registration-office/page.tsx:83-90 | the record is saved exactly when name and department are non-empty; otherwise nothing changes |
| RegistrationOffice.TemplateNeedsFields | frontend/app/admin/registration-office/page.tsx:85-88 | a blank template cannot be saved as it is |
| RegistrationOffice.DeleteRemoves | frontend/app/admin/registration-office/page.tsx:197 | deleting keeps exactly the entries with another id, each as often as before, in order, and a lookup of the id then finds nothing |
| RegistrationOffice.Office.HandleDelete | frontend/app/admin/registration-office/page.tsx:195-200 | the list becomes `Deleted` of the old list, so no visible row has the id; the search and the modal are untouched |
| RegistrationOffice.Office.HandleEdit | frontend/app/admin/registration-office/page.tsx:202-205 | the modal opens on the record; it counts as new exactly when the record's id starts with "NEW-" |
| RegistrationOffice.Deleted | frontend/app/admin/registration-office/page.tsx:197 | the kept records are exactly those with another id; none has the deleted id; the list does not grow |
| RegistrationOffice.NewTemplate | frontend/app/admin/registration-office/page.tsx:207-218 | the template's id starts with "NEW-"; name and department are empty, status is Pending and credits are 0 |
| RegistrationOffice.Office.HandleAddNew | frontend/app/admin/registration-office/page.tsx:207-218 | the modal opens on the template and counts as new |
| RegistrationOffice.Office.HandleSave | frontend/app/admin/registration-office/page.tsx:221-239 | the list becomes `Saved` of the old list and the modal closes |
| RegistrationOffice.Saved | frontend/app/admin/registration-office/page.tsx:221-239 | one entry more for a new record, the same length otherwise; every entry with another id keeps its place; a new record's entry has an id no old entry has |
| RegistrationOffice.MaxParsedId | frontend/app/admin/registration-office/page.tsx:226 | the result is at least 1000, at least every parsed id, and equal to 1000 or to some parsed id |
| RegistrationOffice.AssignedId | frontend/app/admin/registration-office/page.tsx:226-229 | the id handed to a new record parses to one more than the largest parsed id and has no leading zero, which fixes its spelling as `toString` gives it, and no record has it yet |
| RegistrationOffice.SaveNewAppends | frontend/app/admin/registration-office/page.tsx:222-229 | saving a new record adds exactly one entry at the end, under the fresh id and with the other fields as entered, keeps the old entries in order, and a lookup of the fresh id finds the new entry |
| RegistrationOffice.ReplaceById | frontend/app/admin/registration-office/page.tsx:232-234 | same length; each entry with the saved id becomes the saved record, every other entry is kept |
| RegistrationOffice.SaveExistingReplaces | frontend/app/admin/registration-office/page.tsx:230-235 | saving an existing record keeps the length and every entry with another id, and replaces every entry with its id |
| RegistrationOffice.SaveExistingFinds | frontend/app/admin/registration-office/page.tsx:232-234 | after saving an existing record, a lookup of its id returns it if some entry had the id and nothing otherwise |
| RegistrationOffice.Office.HandleClose | frontend/app/admin/registration-office/page.tsx:241-243 | the modal closes; nothing else changes |
| RegistrationOffice.EmptyTermKeepsAll | frontend/app/admin/registration-office/page.tsx:246-250 | the empty term matches every record |
| RegistrationOffice.FilteredStudents | frontend/app/admin/registration-office/page.tsx:246-250 | exactly the records matching on name or department ignoring case, or on the id, each as many times as in the list, as an order-preserving sublist; all records for the empty term |
| RegistrationOffice.Office.SetSearchTerm | frontend/app/admin/registration-office/page.tsx:272 | only the search term changes; clearing it shows every record |
| CourseRegistration.Registration.constructor | frontend/app/dashboard/academics/registration/page.tsx:29-34 | an empty schedule with total 0, no selection, closed modal, and the invariant holds |
| CourseRegistration.CheckPrerequisites | frontend/app/dashboard/academics/registration/page.tsx:38-40 | exactly the prerequisites not completed, each as many times as the course lists it, in order; empty exactly when all are completed |
| CourseRegistration.Registration.HandleAddCourse | frontend/app/dashboard/academics/registration/page.tsx:42-47 | opens the modal on the course with its missing prerequisites; schedule and total untouched; invariant kept |
| CourseRegistration.Registration.ConfirmAdd | frontend/app/dashboard/academics/registration/page.tsx:49-56 | appends the selected course and adds its credits exactly when a course is selected, nothing is missing and its code is not scheduled (so all its prerequisites are completed); otherwise schedule and total are unchanged; always closes the modal and clears the selection; invariant kept; after an add, the course's row can no longer register |
| CourseRegistration.DropOne | frontend/app/dashboard/academics/registration/page.tsx:61-62 | removing the only course with a code shortens the schedule by one and lowers the credit sum by that course's credits |
| CourseRegistration.FilterKeepsDistinctCodes | frontend/app/dashboard/academics/registration/page.tsx:61 | filtering a schedule with distinct codes keeps them distinct |
| CourseRegistration.DropScheduled | frontend/app/dashboard/academics/registration/page.tsx:58-63 | dropping a scheduled code removes exactly that course: one fewer course, codes still distinct, the code gone, the sum lowered by its credits |
| CourseRegistration.DropAbsent | frontend/app/dashboard/academics/registration/page.tsx:58-63 | dropping a code that is not scheduled changes nothing |
| CourseRegistration.Registration.HandleDropCourse | frontend/app/dashboard/academics/registration/page.tsx:58-64 | an unscheduled code leaves schedule and total unchanged; a scheduled code removes only that course and subtracts its credits; invariant kept |
| CourseRegistration.EmptyTermKeepsAll | frontend/app/dashboard/academics/registration/page.tsx:68-74 | the empty term matches every course |
| CourseRegistration.FilteredCourses | frontend/app/dashboard/academics/registration/page.tsx:68-74 | exactly the courses whose title or code contains the term ignoring case, each as many times as in the catalogue, as an order-preserving sublist; all for the empty term |
| CourseRegistration.CanRegister | frontend/app/dashboard/academics/registration/page.tsx:79-81 | a row can register exactly when the course is unscheduled, every prerequisite is completed and a seat is left |
| CourseRegistration.IsScheduled | frontend/app/dashboard/academics/registration/page.tsx:160 | a code is scheduled exactly when some scheduled course has it |
| CourseRegistration.AddDisabled | frontend/app/dashboard/academics/registration/page.tsx:106 | the add button is disabled exactly when the row cannot register |
| CourseRegistration.Registration.SetSearchTerm | frontend/app/dashboard/academics/registration/page.tsx:152 | only the search term changes; clearing it lists the whole catalogue; invariant kept |
| CourseRegistration.Registration.CloseModal | frontend/app/dashboard/academics/registration/page.tsx:201-241 | each of the three close buttons closes the modal and keeps the selection, its status list, the schedule and the total; invariant kept |
| AddDrop.RequestForm.constructor | frontend/app/dashboard/requests/add-drop/page.tsx:22-25 | add tab, nothing selected, no reason, not submitting |
| AddDrop.GetCourseDetails | frontend/app/dashboard/requests/add-drop/page.tsx:29-31 | the first catalogue course with the code; failing that the first scheduled course with it; nothing exactly when neither has it |
| AddDrop.RequestForm.HandleRequestSubmit | frontend/app/dashboard/requests/add-drop/page.tsx:33-41 | accepted exactly when a course is selected and a reason given; a rejected request changes nothing; an accepted one starts submitting |
| AddDrop.RequestForm.FinishSubmission | frontend/app/dashboard/requests/add-drop/page.tsx:44-49 | ends submitting and clears selection and reason, so the form is no longer ready to submit |
| AddDrop.IsFullExactly | frontend/app/dashboard/requests/add-drop/page.tsx:55-56 | the capacity comparison on what `getCourseDetails` found holds exactly when the first catalogue entry with the code is at or over capacity |
| AddDrop.IsFull | frontend/app/dashboard/requests/add-drop/page.tsx:55-56 | the selection is full exactly when its first catalogue entry is at or over capacity; a code found only on the schedule, or nowhere, is never full |
| AddDrop.SampleFull | frontend/app/dashboard/requests/add-drop/page.tsx:12 | "FIN 201" (105 of 100) is full |
| AddDrop.SampleOpen | frontend/app/dashboard/requests/add-drop/page.tsx:10-11 | "CS 410" and "HUMN 350" are not full |
| AddDrop.SampleScheduledNotFull | frontend/app/dashboard/requests/add-drop/page.tsx:16 | "MATH 305", found only on the schedule, is not full |
| AddDrop.RequestForm.SelectCourse | frontend/app/dashboard/requests/add-drop/page.tsx:68 | only the selection changes |
| AddDrop.RequestForm.SetReason | frontend/app/dashboard/requests/add-drop/page.tsx:100 | only the reason changes |
| AddDrop.RequestForm.SubmitDisabled | frontend/app/dashboard/requests/add-drop/page.tsx:109 | disabled exactly while submitting, or on the add tab when the selected course's first catalogue entry is full (the drop button, line 169, only while submitting) |
| AddDrop.DropOptions | frontend/app/dashboard/requests/add-drop/page.tsx:136-137 | exactly the scheduled courses with status "Registered", each as many times as on the schedule, in schedule order |
| AddDrop.SampleDropOptions | frontend/app/dashboard/requests/add-drop/page.tsx:15-19 | the page's schedule offers its two registered courses and not the completed one |
| AddDrop.RequestForm.SelectTab | frontend/app/dashboard/requests/add-drop/page.tsx:204-214 | either tab switches the tab and clears selection and reason |
| Clearance.SampleIsOnHold | frontend/app/dashboard/requests/clearance/page.tsx:17-23 | the page's checklist shows the hold banner and is not complete |
| Clearance.StatusStylesDistinct | frontend/app/dashboard/requests/clearance/page.tsx:28-35 | two statuses get the same style exactly when they are the same status |
| Clearance.ClearedItems | frontend/app/dashboard/requests/clearance/page.tsx:47-48 | the cleared count never exceeds the item count |
| Clearance.CompleteIffAllCleared | frontend/app/dashboard/requests/clearance/page.tsx:47-49 | the cleared count reaches the item count exactly when every item is cleared |
| Clearance.IsComplete | frontend/app/dashboard/requests/clearance/page.tsx:49 | complete exactly when every item is cleared; an empty checklist is complete |
| Clearance.HasHold | frontend/app/dashboard/requests/clearance/page.tsx:50 | a hold exactly when some item is on hold |
| Clearance.HoldBlocksCompletion | frontend/app/dashboard/requests/clearance/page.tsx:49-50 | an item on hold makes the checklist incomplete |
| Clearance.OverallBanner | frontend/app/dashboard/requests/clearance/page.tsx:64-85 | hold banner exactly when some item is on hold; complete banner exactly when all are cleared; pending banner exactly when none is on hold and some is pending |
| Enrollment.ShippedPageIsEmpty | frontend/app/dashboard/enrollment/page.tsx:19-24 | with the shipped empty record list: zero credits, zero counts, only "All Semesters", an empty table |
| Enrollment.TotalAttemptedCredits | frontend/app/dashboard/enrollment/page.tsx:31 | the `reduce` from 0 is the sum of the records' credits |
| Enrollment.TotalIsSumOfCredits | frontend/app/dashboard/enrollment/page.tsx:31 | the `reduce` total adds up over a split of the records |
| Enrollment.CountsBounded | frontend/app/dashboard/enrollment/page.tsx:32-33 | completed count plus in-progress count is at most the number of records |
| Enrollment.CompletedCount | frontend/app/dashboard/enrollment/page.tsx:32 | at most the number of records; zero exactly when no record is completed; all exactly when every record is |
| Enrollment.InProgressCount | frontend/app/dashboard/enrollment/page.tsx:33 | at most the number of records; zero exactly when no record is in progress; all exactly when every record is |
| Enrollment.UniqueSemesters | frontend/app/dashboard/enrollment/page.tsx:36 | "All Semesters" first, then every record's semester, each once, as a sublist of the records' semesters |
| Enrollment.UniqueSemestersFirstOccurrence | frontend/app/dashboard/enrollment/page.tsx:36 | the list for a prefix of the records is a prefix of the list for all of them, so semesters appear in first-occurrence order |
| Enrollment.ShowAllKeepsAll | frontend/app/dashboard/enrollment/page.tsx:39-44 | empty term with "All Semesters" shows every record |
| Enrollment.FilteredCourses | frontend/app/dashboard/enrollment/page.tsx:39-44 | exactly the records matching term (title or code, ignoring case) and semester, each as many times as in the records, as an order-preserving sublist; all records with no term and all semesters; only the selected semester otherwise |
| Events.GroupEventsByMonth | frontend/app/dashboard/events/page.tsx:20-29 | the keys are the distinct months in first-occurrence order; the map's keys are exactly those; each group is the events of its month in input order; no group is empty |
| Events.NewMonthStep | frontend/app/dashboard/events/page.tsx:23-26 | the callback on an event of a new month keeps the grouping correct for the events seen so far |
| Events.NewMonthAddsKey | frontend/app/dashboard/events/page.tsx:23-25 | a month not seen before becomes the last key |
| Events.StartGroup | frontend/app/dashboard/events/page.tsx:24-26 | creating the empty group and pushing the event leaves every group equal to the events of its month |
| Events.KnownMonthStep | frontend/app/dashboard/events/page.tsx:26 | the callback on an event of a known month keeps the grouping correct |
| Events.KnownMonthKeepsKeys | frontend/app/dashboard/events/page.tsx:23 | a month seen before adds no key |
| Events.AppendToGroup | frontend/app/dashboard/events/page.tsx:26 | pushing the event onto its month's group leaves every group equal to the events of its month |
| Events.DedupMonthsStep | frontend/app/dashboard/events/page.tsx:23-25 | one more event adds its month at the end of the distinct months exactly when it is new |
| Events.FilterOfSnoc | frontend/app/dashboard/events/page.tsx:26 | one more event joins the end of its own month's group and no other |
| Events.AbsentMonthSelectsNothing | frontend/app/dashboard/events/page.tsx:23-24 | a month no event has selects no event |
| Events.PresentMonthSelectsSome | frontend/app/dashboard/events/page.tsx:89 | a month some event has selects at least one event |
| Events.GroupsAreNonEmpty | frontend/app/dashboard/events/page.tsx:89 | no group of a grouping is empty |
| Events.GroupSizesSum | frontend/app/dashboard/events/page.tsx:20-29 | the group sizes over the distinct months add up to the number of events: none is lost or counted twice |
| Events.GroupSizeStep | frontend/app/dashboard/events/page.tsx:26 | one more event adds one to its month's group size and leaves the others |
| Events.GroupsAreFaithful | frontend/app/dashboard/events/page.tsx:21-27 | a group holds only events of its month, taken from the input, as an order-preserving sublist |
| Events.EmptyTermKeepsAll | frontend/app/dashboard/events/page.tsx:35-42 | the empty term matches every event |
| Events.FilteredEvents | frontend/app/dashboard/events/page.tsx:35-42 | exactly the events whose title, category or location contains the term ignoring case, each as many times as in the list, as an order-preserving sublist; all for the empty term |

## Left out

- The Express servers, Prisma controllers and server actions are left out: they are thin
  wrappers over the database and HTTP. So are bcrypt hashing and `backend/lib/prisma.ts`. The
  login takes the two credential lists as parameters. `Login.BackendShapedListsRejectAll` states
  what happens with lists shaped like that file's records.
- Floating-point code is left out: payment amounts, GPA, currency formatting.
- Presentation is left out: layouts, navigation, badges, icons, accordions, the simple request
  forms, and the "Showing N of M" captions.
- `Math.random`, `Date.now` and `new Date()` become parameters.
  - `draw < 900000` stands for the drawn id.
  - The password and join date are arbitrary strings.
  - `now` is the number behind the temporary "NEW-" id.
- `alert`, `window.confirm` and `setTimeout` are left out, and so are the two `console.log`
  calls of `createStudentProfile` in `frontend/lib/data-service.ts`.
  - A delete is modelled as already confirmed.
  - The timer's callback is the separate method `AddDrop.RequestForm.FinishSubmission`.
- React's batching of state setters is left out. Each handler is one sequential state transition
  on the page's class.
- `toLowerCase` is ASCII only. Unicode case mapping and normalisation are not modelled.
- `parseInt` is modelled on non-empty strings of decimal digits, with everything else as `NaN`.
  Not modelled: a leading sign, leading whitespace, a partial parse such as "12ab" giving 12, a
  "0x" prefix read as hexadecimal when no radix is given ("0x1A" gives 26), and precision loss
  above 2^53.
- `Events.GroupEventsByMonth`: the keys are returned in creation order. Not modelled:
  - `Object.keys` lists integer-like keys (such as "10") in numeric order before the others;
  - `!acc[monthKey]` sees inherited properties for keys such as "constructor".

  Neither arises for month names like "OCT".
- The registration-office input handler's `parseInt(value) || 0` for the credits field is left
  out. Records are saved with whatever credits they carry.
- Credits are integers throughout; a fractional credit value is not modelled.
- `getStudents` of `lib/data.ts` (which returns the array itself) is the field
  `StudentStore.Store.students`.
- `getAdminCredentials` is the constant function `StudentStore.GetAdminCredentials`. Its values
  are stated through `Login.StoreAdminLogsIn`.
- The login page is not wired to `lib/data.ts`: it fetches its two lists from the back end's
  server actions. `Login.StoreAdminLogsIn` only states what the store's credentials would do as
  an admin list; with the back end's record shapes `Login.BackendShapedListsRejectAll` applies.
- Two parts of the login page's `handleSubmit` are left out, being messages only:
  - the failure hint, which shows the first admin's and the first student's credentials;
  - the `catch` path of a failed fetch, which sets an error message and does not redirect.
