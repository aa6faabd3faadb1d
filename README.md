# exam-compass: session, role and page-handler model

exam-compass is a university exam-supervision scheduler. Secretaries add
professors, courses and exams. PhD students mark their availability for exams
and choose their supervisors. Data and identity live in a hosted backend.

This project models the stateful decision logic of the application in Dafny:

- `Auth` (`src/lib/auth.tsx`): the `AuthProvider` with its four fields
  `user`, `session`, `role` and `loading`. Its transitions are the
  session-change listener, completion of the initial `getSession`,
  `fetchUserRole`, `signInDemo` and `signOut`. The transitions are specified
  by a pure state machine over `AuthView` (`Step`), which can be run over any
  interleaving of events, lookups and sign-outs.
- `AuthCallback` (`src/pages/AuthCallback.tsx`): the decision chain of
  `handleCallback` (a pure `Decide`) and `assignRole`.
- `Dashboard` (`src/pages/Dashboard.tsx`): building the availability map from
  rows, the availability toggle, the priority-exam test, `formatTime` and the
  leaderboard slice.
- `Profile` (`src/pages/Profile.tsx`): the supervisor toggle and the save that
  replaces the student's link rows.
- `Manage` (`src/pages/Manage.tsx`): the validation, row construction and form
  reset of the three add handlers, `deleteExam`, `fetchData` and the effect
  that guards it.
- `Backend`: the hosted backend, replaced by an in-model `Store` class. It
  holds accounts by email, the current session, `user_roles` keyed by user
  id, the supervisor links as a set, availability by user and exam, and the
  professor, course and exam tables. Every SDK call is one atomic method.
  Whether a call fails is a parameter (`fault`). What a select returns, in
  the server's order, is a parameter of the page's `FetchData`. Where a select
  reads the signed-in user's links or availability, the precondition of
  `FetchData` says that the rows are exactly that user's rows in the store.
- `Strings`: the JavaScript string operations the core uses (`includes`,
  `endsWith`, `trim`, `slice(0, n)`, `parseInt`).

Every async handler is one atomic method over the page's fields and the
store. Navigation is recorded as the route in a `navigatedTo` field. A toast
is recorded as the handler's `Outcome`.

Backend assumptions, which the application relies on but does not define:

- `user_roles.user_id` is unique. It is also a foreign key to the accounts,
  and so is the `user_id` of the links. `Store.Valid()` states both.
- An availability row is unique per (user, exam).
- `signUp` with an email that is already registered fails with "User already
  registered".
- A successful `signUp` also signs the new account in (no email
  confirmation).

## Model

| member | source | states |
|---|---|---|
| `Strings.Includes` | src/lib/auth.tsx:113 | `includes` is true exactly when the pattern occurs at some index of the message |
| `Strings.EndsWithIff` | src/pages/AuthCallback.tsx:37 | a string ends with a suffix exactly when it is some prefix followed by that suffix |
| `Strings.IsBlank` | src/pages/Manage.tsx:110 | `!s.trim()` holds exactly when every character is ECMAScript whitespace or a line terminator |
| `Strings.Prefix` | src/pages/Dashboard.tsx:175 | `slice(0, n)` has length min(n, length) and agrees with the input at every position it keeps |
| `Strings.ParseInt` | src/pages/Manage.tsx:173 | the parse is NaN exactly when no digit follows the leading whitespace and optional sign |
| `Strings.ParseIntOfDecimal` | src/pages/Manage.tsx:173 | parsing the decimal numeral of any natural number gives back that number |
| `Backend.SessionUser` | src/lib/auth.tsx:42 | `session?.user ?? null` is present exactly when there is a session that has a user |
| `Backend.LinksOf` | src/pages/Profile.tsx:60-68 | the professor ids selected for a user are exactly those p with a link row (user, p) |
| `Auth.RoleAfterLookup` | src/lib/auth.tsx:68-87 | a found row sets the role to the stored value; a lookup error or a missing row leaves the role unchanged |
| `Auth.AfterSessionChange` | src/lib/auth.tsx:39-53 | the event's session is adopted and `user` is its user; a null session or user clears `role`; with a user, `role` is untouched; `loading` never changes |
| `Auth.AfterEvents` | src/lib/auth.tsx:39-53 | the listener over a sequence of events, oldest first: no sequence of events changes `loading`, and an empty sequence leaves the state as it was |
| `Auth.LastEventDecidesUser` | src/lib/auth.tsx:39-53 | after any non-empty sequence of events, `user` is present exactly when the last event carried a user, and `session` is the last event's. There is no role without a user, for sequences of events with no role lookup completing in between (see Findings) |
| `Auth.AfterInitialSession` | src/lib/auth.tsx:56-63 | the initial session and its user are adopted, the role is looked up only when there is a user, and `loading` becomes false whether or not a session was found |
| `Auth.LoadingEndsOnlyWithInitialSession` | src/lib/auth.tsx:35-63 | `loading` stays true through any events before the initial `getSession` completes, and stays false through any events after it |
| `Auth.AfterSignOut` | src/lib/auth.tsx:175-180 | sign-out leaves `user`, `session` and `role` null and keeps `loading` |
| `Auth.AfterRoleLookup` | src/lib/auth.tsx:68-87 | a completed role lookup changes only `role`, to `RoleAfterLookup` of the current role |
| `Auth.StaleLookupGivesRoleWithoutUser` | src/lib/auth.tsx:45-50 | a signed-in event, then a signed-out event, then the first event's deferred lookup leaves a role with no user |
| `Auth.StepChecked` | src/lib/auth.tsx:39-87 | the corrected step keeps "no role without a user". It agrees with the provider's step on events, sign-out and an initial session with a user. It adopts a lookup only for the user still signed in |
| `Auth.CheckedRunsKeepRoleWithUser` | src/lib/auth.tsx:39-87 | with the corrected steps, no interleaving of events, lookups, initial session and sign-out leaves a role without a user |
| `Auth.DemoAccount` | src/lib/auth.tsx:20-29 | the password of both demo accounts is 'demo123456'. The secretary signs in as demo.secretary@hua.gr and the PhD student as demo.phd@hua.gr, and neither email serves the other role |
| `Auth.DemoFullName` | src/lib/auth.tsx:120 | a secretary's demo account is named 'Demo Γραμματεία' and a PhD student's 'Demo Διδακτορικός'; neither name is given to the other role |
| `Auth.DemoLinks` | src/lib/auth.tsx:136-142 | demo sign-up links a PhD student to exactly the demo professor '11111111-1111-1111-1111-111111111111' and a secretary to none |
| `Auth.AuthProvider.constructor` | src/lib/auth.tsx:32-35 | on mount, user, session and role are null and `loading` is true |
| `Auth.AuthProvider.OnAuthStateChange` | src/lib/auth.tsx:39-53 | the fields follow `AfterSessionChange`; a role lookup for the session user's id is deferred exactly when there is a user |
| `Auth.AuthProvider.FetchUserRole` | src/lib/auth.tsx:68-87 | the state takes the `RoleLookedUp` step: `role` becomes `RoleAfterLookup` of the `user_roles` lookup, whoever is signed in by then; the store is not changed |
| `Auth.AuthProvider.GetSessionCompleted` | src/lib/auth.tsx:56-63 | the fields take the `InitialSession` step with the session `getSession` hands over and the role lookup for its user. A failed read hands over no session, so user and session end null and `loading` false |
| `Auth.AuthProvider.SignInDemo` | src/lib/auth.tsx:102-173 | a sign-in error without 'Invalid login credentials' is returned as is and nothing is created. A failed sign-up is returned as is. Sign-up creates a fresh account, inserts the role row and, for a PhD student, the single demo link, then sets the requested role. An existing account adopts its stored role, even one that differs from the request, or else upserts the requested role keyed by user id. The store stays `Valid` |
| `Auth.AuthProvider.ProvisionDemo` | src/lib/auth.tsx:114-147 | the sign-up branch: the outcomes above for a failed and a successful sign-up; the new user's links are exactly `DemoLinks` |
| `Auth.AuthProvider.AdoptDemoRole` | src/lib/auth.tsx:153-170 | a found role row is adopted and left unchanged; on a missing row or lookup error the requested role is upserted for that user id and set |
| `Auth.AuthProvider.SignOut` | src/lib/auth.tsx:175-180 | on return the fields follow `AfterSignOut` whatever the provider answers. The provider's session ends unless the call fails, whose error is not inspected |
| `Auth.SignInDemoTwice` | src/lib/auth.tsx:102-173 | when nothing fails, after one successful call a second call for the same role succeeds, keeps the role, and creates no account, role row or link |
| `AuthCallback.DemoAccountsHaveUniversityEmail` | src/lib/auth.tsx:20-29 | both demo emails pass the '@hua.gr' domain check of the callback |
| `AuthCallback.Message` | src/pages/AuthCallback.tsx:25-76 | the four texts shown for a session error, a missing user, a non-university email and a failed role assignment; each text belongs to exactly one error |
| `AuthCallback.HasUniversityEmail` | src/pages/AuthCallback.tsx:37 | the check passes exactly when the user has an email that is some prefix followed by '@hua.gr'; a missing email fails it |
| `AuthCallback.Decide` | src/pages/AuthCallback.tsx:20-62 | a session error, and only that, fails with the session message and no sign-out. A session without user, and only that, fails with 'no user'. A missing or non-'@hua.gr' email, and only that, fails with sign-out. The role-assignment error never comes from here. The dashboard is reached only with a role row found without error. A user who passes the domain check never fails. The role picker gets the session user's id, and for such a user a failed lookup always leads to it |
| `AuthCallback.RolesConsultedOnlyForUniversityUsers` | src/pages/AuthCallback.tsx:22-48 | while the session, user or domain check fails, the outcome does not depend on the role table or on its lookup |
| `AuthCallback.UniversityUserOutcome` | src/pages/AuthCallback.tsx:43-57 | a university user with a role row goes to the dashboard; one without a row gets the role picker with their id |
| `AuthCallback.CallbackPage.constructor` | src/pages/AuthCallback.tsx:11-14 | the page starts without error, role prompt, user id, assignment or navigation |
| `AuthCallback.CallbackPage.HandleCallback` | src/pages/AuthCallback.tsx:20-62 | failures set only `error` to the error's message. The domain failure also signs out, and the provider's session ends unless that sign-out fails. The dashboard outcome navigates and leaves `needsRole` as it was. The role-picker outcome sets `userId` to the session user's id and `needsRole` to true |
| `AuthCallback.CallbackPage.AssignRole` | src/pages/AuthCallback.tsx:64-87 | without a `userId` nothing changes. A failed insert sets an error and does not navigate. A successful one stores the role and navigates to /dashboard. `isAssigning` is false after either |
| `Dashboard.AvailabilityOf` | src/pages/Dashboard.tsx:101-106 | the map's keys are exactly the exam ids the rows name, and the last row's exam holds the last row's value |
| `Dashboard.AvailabilityOfRows` | src/pages/Dashboard.tsx:101-106 | an exam id is in the map exactly when a row names it, and it holds the `is_available` of the last such row |
| `Dashboard.AvailabilityOfStoredRows` | src/pages/Dashboard.tsx:94-106 | rows that list exactly a user's stored availability build that stored map, in any order |
| `Dashboard.BuildAvailabilityMap` | src/pages/Dashboard.tsx:101-106 | the `forEach` loop builds `AvailabilityOf(rows)` |
| `Dashboard.Toggled` | src/pages/Dashboard.tsx:137-152 | an absent exam becomes true, a present one is negated, every other entry is unchanged |
| `Dashboard.ToggleTwiceRestores` | src/pages/Dashboard.tsx:145-152 | once an exam has an entry, two toggles restore the map |
| `Dashboard.ToggleTwiceFromAbsent` | src/pages/Dashboard.tsx:139-152 | two toggles of an absent exam leave it recorded as false |
| `Dashboard.IsPriorityExam` | src/pages/Dashboard.tsx:161-164 | false without course or professor, otherwise true exactly when the professor's id is among the links |
| `Dashboard.PriorityFollowsStoredLinks` | src/pages/Dashboard.tsx:161-164 | with links loaded for a user, an exam is priority exactly when the store links that user to the exam's professor |
| `Dashboard.FormatTime` | src/pages/Dashboard.tsx:174-176 | the result is the first five characters of the time, or all of a shorter one |
| `Dashboard.Leaderboard` | src/pages/Dashboard.tsx:365 | at most the first five fetched profiles, in fetched order |
| `Dashboard.DashboardPage.constructor` | src/pages/Dashboard.tsx:50-54 | the page starts empty and loading |
| `Dashboard.DashboardPage.FetchData` | src/pages/Dashboard.tsx:68-132 | each list is replaced by what the server returned, or kept when it returned nothing. Availability and links are read only for a user. Availability is `AvailabilityOf` the rows, which is the user's stored availability. An exam is then a priority exam exactly when the store links the user to its professor. Loading ends |
| `Dashboard.DashboardPage.ToggleAvailability` | src/pages/Dashboard.tsx:134-154 | without a user nothing changes. Otherwise the page map becomes `Toggled`. The store gets an insert of true for an exam without an entry, or an update to the negated value. A page in step with the store stays in step when the write succeeds |
| `Profile.Without` | src/pages/Profile.tsx:77 | the filter keeps exactly the ids different from the removed one |
| `Profile.ToggleSupervisor` | src/pages/Profile.tsx:74-80 | a present id is filtered out, an absent one is appended at the end |
| `Profile.ToggleFlipsOnlyThatId` | src/pages/Profile.tsx:74-80 | a toggle flips membership of the toggled id, keeps membership of every other id, and keeps the other ids in their relative order |
| `Profile.ToggleTwice` | src/pages/Profile.tsx:74-80 | two toggles of one id give back the same set of ids, and the same list when the id was absent |
| `Profile.ReplaceLinks` | src/pages/Profile.tsx:87-103 | other users' links are unchanged and this user's links are exactly the selected ids |
| `Profile.SaveAfterLoadKeepsLinks` | src/pages/Profile.tsx:60-103 | saving the selection just loaded leaves the store's links as they were |
| `Profile.ProfilePage.constructor` | src/pages/Profile.tsx:29-32 | the page starts with no professors, no selection, not saving, loading |
| `Profile.ProfilePage.FetchData` | src/pages/Profile.tsx:46-72 | for a signed-in user the selection becomes the loaded `professor_id`s, which are exactly the professors the store links that user to. The professor list becomes the loaded list. Loading ends |
| `Profile.ProfilePage.Toggle` | src/pages/Profile.tsx:74-80 | the selection becomes `ToggleSupervisor` of the old one |
| `Profile.LoadThenSave` | src/pages/Profile.tsx:46-108 | loading the page and saving without a toggle leaves the store's links as they were and goes to the dashboard, when neither write fails |
| `Profile.ProfilePage.HandleSave` | src/pages/Profile.tsx:82-108 | without a user nothing changes. Otherwise other users' links never change. When the writes succeed, this user's links become the selection. An empty selection only deletes. A failed delete keeps this user's old rows, and a successful insert then adds the selection to them. A successful delete with a failed insert leaves this user with no links. The page leaves `saving` and goes to the dashboard |
| `Manage.NullIfEmpty` | src/pages/Manage.tsx:117-118 | the empty string becomes null, any other string is kept |
| `Manage.SupervisorsNeeded` | src/pages/Manage.tsx:173 | the parsed number when it is neither NaN nor 0, otherwise 2; never 0 |
| `Manage.SupervisorsNeededOfNumeral` | src/pages/Manage.tsx:173 | a typed positive number is stored as typed, and "0" falls back to 2 |
| `Manage.ProfessorRow` | src/pages/Manage.tsx:115-119 | the name is kept as typed and untrimmed; an empty department or email becomes null |
| `Manage.ProfessorFormValid` | src/pages/Manage.tsx:110 | the professor form passes exactly when the name holds a character other than whitespace |
| `Manage.CourseFormValid` | src/pages/Manage.tsx:135 | the course form passes exactly when the name holds a character other than whitespace |
| `Manage.ExamFormValid` | src/pages/Manage.tsx:162 | the exam form passes exactly when the row it builds has a non-empty course and date (no trimming) |
| `Manage.CourseRow` | src/pages/Manage.tsx:140-145 | an empty code, professor or semester becomes null, and a non-empty one is kept as typed; the name is kept |
| `Manage.ExamRow` | src/pages/Manage.tsx:167-174 | course, date and times are kept. An empty location becomes null and a non-empty one is kept. The supervisor count is `parseInt` of the field with fallback 2, and never 0 |
| `Manage.DefaultExamRow` | src/pages/Manage.tsx:69-74 | the untouched exam form gives 09:00 to 12:00, no location and 2 supervisors |
| `Manage.ManagePage.constructor` | src/pages/Manage.tsx:54-76 | the lists start empty, the forms at their defaults, no dialog open |
| `Manage.ManagePage.FetchData` | src/pages/Manage.tsx:93-107 | each list is replaced by what the server returned, or kept when it returned nothing; loading ends |
| `Manage.ManagePage.OnAuthChange` | src/pages/Manage.tsx:87-91 | the lists are loaded only when a user is present and the role is secretary; otherwise nothing changes |
| `Manage.ManagePage.AddProfessor` | src/pages/Manage.tsx:109-132 | a blank name is rejected and nothing is inserted. A failed insert leaves the form and dialog as they were. Success inserts `ProfessorRow` under a new id, resets the form and closes the dialog |
| `Manage.ManagePage.AddCourse` | src/pages/Manage.tsx:134-159 | the same for courses: blank names are rejected, and the form resets only on success |
| `Manage.ManagePage.AddExam` | src/pages/Manage.tsx:161-190 | nothing is inserted without both course and date. The form resets to '' / '09:00' / '12:00' / '2' and the dialog closes only on success |
| `Manage.ManagePage.DeleteExam` | src/pages/Manage.tsx:192-200 | on success exactly the exam with that id is removed, and every other exam is unchanged |

## Left out

- `signInWithGoogle` (src/lib/auth.tsx:89-100) only starts an OAuth redirect. The redirect is outside the model. `Auth.tsx`, `Index.tsx`, `main.tsx` and all rendering, styling, toasts and animation are not part of this model.
- The deferral of the listener's role lookup (`setTimeout`) is returned as `deferredLookup`, and running it is a separate `FetchUserRole` call. The order of events, deferred lookups and the initial `getSession` is up to the caller. Races between them are not modelled.
- `Auth.AuthProvider.GetSessionCompleted`: the source does not await the role lookup before clearing `loading`. Here the lookup runs first, as part of the same atomic step.
- Thrown exceptions are not modelled: the `catch` blocks of `handleCallback`, `assignRole` and `fetchUserRole`, and `useAuth` outside its provider. Only returned errors are modelled, as fault inputs, including the ignored error of `signOut`.
- `Auth.AuthProvider.ProvisionDemo`: a successful `signUp` always returns a user, so the `if (signUpData.user)` branch with no user is not modelled.
- `Strings.ParseInt` is a decimal-prefix parse. The hexadecimal `0x` prefix and the other corner cases of JavaScript `parseInt` are left out. `formatDate` (`toLocaleDateString`) depends on the locale and is left out.
- The server's `order` and `limit(10)`, and the course and professor joins of the exam selects, are taken as given rows.
- Supervisor links form a set, so duplicate link rows cannot be represented. Deleting an exam does not cascade to availability rows. Row-level security is not modelled.
- The redirects in the pages' effects (to /auth without a user, to /dashboard for a non-secretary on the management page) are left out. Console logging is left out too.
- After a successful add or delete, the management page starts `fetchData` without awaiting it and without the effect's user and role guard. Here that refetch is a separate call of the unguarded `Manage.ManagePage.FetchData`, which the add and delete methods do not make themselves.
- Strings are sequences of Unicode scalar values, while JavaScript strings are sequences of UTF-16 code units. For text with characters outside the Basic Multilingual Plane, `Strings.Prefix` (`slice(0, 5)`) and the other string operations count characters differently from the source.

## Findings

| source | as written | input that shows it | evidently intended | confidence | as-written member | corrected member |
|---|---|---|---|---|---|---|
| src/lib/auth.tsx:45-50 | the role lookup deferred by a signed-in event sets `role` when it completes, whoever is signed in by then (lines 81-83). The `getSession` handler (lines 56-62) keeps the role when it finds no user | a signed-in event for user a, then a signed-out event, then a's deferred lookup finding a role: `user` is null and `role` is a's role | the listener clears the role whenever there is no user (line 50), so a role should only be held while someone is signed in | medium, not executed | `Auth.StaleLookupGivesRoleWithoutUser` | `Auth.StepChecked`, `Auth.CheckedRunsKeepRoleWithUser` |

The `AuthProvider` class models the code as written (`FetchUserRole` takes the provider's `Step`). The corrected transition `StepChecked` is the pure model of the intended behaviour.
