# think-code, modelled in Dafny

think-code is a coding-practice web application. A React client shows
questions, lets a student write JavaScript in an editor, grades a run with
substring checks and captured console output, and posts accepted solutions to
an Express/Mongoose back end. That back end keeps one submission per student
and question, computes a letter grade from the question's difficulty, lets an
administrator override it, and serves per-student statistics. Admin pages group,
count and grade the submissions, and a profile page totals a student's own work.

This project models the rules under that glue as pure functions over immutable
data, and proves properties of them:

- the submission ledger of `backend/index.js`: the difficulty grade, the POST
  validation, the upsert keyed by (studentEmail, questionId), the admin grade
  override, per-student stats, the solved-count aggregation, the deletes, and
  the two sign-up routes (`ledger.dfy`, `accounts.dfy`);
- the four Mongoose schemas: required fields, defaults, enums, trimming,
  lower-casing and uniqueness (`submission_model.dfy`, `question_model.dfy`,
  `student_model.dfy`, `registration_model.dfy`);
- the code validator of `SolutionPage.js`: the console capture, the output normaliser,
  the title dispatch, the static pre-checks and the print-numbers comparison
  (`output.dfy`, `patterns.dfy`, `grader.dfy`). Running the student's code is an
  oracle that returns the captured logs and the returned value;
- the run/submit flow of the same page: the gate, the ordered endpoint
  candidates, first-success-wins and the offline record (`submit_client.dfy`);
- the admin submissions page, the student profile and the admin dashboard as
  folds over submission lists (`admin_submissions.dfy`, `student_profile.dfy`,
  `admin_dashboard.dfy`);
- page selection in `App.js` and the student login/registration popup
  (`navigation.dfy`, `student_login.dfy`).

Shared modules:
- `Wrappers` holds Option and Result.
- `Text` holds the JavaScript string operations used: `trim` over the
  ECMAScript white-space set, `split`/`join`, `includes`, ASCII case mapping,
  `||` on possibly missing strings, and code-point ordering.
- `Seqs` holds `filter`, `findIndex` and distinct elements.
- `Sorting` is an insertion sort over a total preorder.
- `Numbers` holds `String(g).replace(/[^0-9.]/g, '')` followed by `Number(...)`, and the averages.
- `Entries` is the browser-side view of a submission.
- `Ids` gives fresh document ids.
- `Http` is the ok-status range.

HTTP, MongoDB and browser storage are modelled as explicit values:
- Stores are sequences of records, with key uniqueness proved to be preserved.
- `fetch` is a function parameter that answers each attempt.
- `localStorage` is passed in and returned.
- Clock readings and the bcrypt hash are parameters.

## Model

| member | source | states |
|---|---|---|
| Ledger.ComputeGrade | backend/index.js:315-326 | the lower-cased difficulty gives "A+" iff hard, "A" iff medium, "B+" iff easy, and "B" for anything else, including a missing one |
| Ledger.ComputeGradeIgnoresCase | backend/index.js:315-326 | "Hard" grades "A+" and "MEDIUM" grades "A": the mapping ignores case |
| Ledger.ComputeGradeFallback | backend/index.js:315-326 | "Easy" grades "B+"; a missing difficulty and an unknown one ("Expert") both grade "B" |
| Ledger.Override | backend/index.js:348-362 | a `$set` key with an undefined request value keeps the stored value, otherwise takes the request's |
| Ledger.StudentIdFor | backend/index.js:340-344 | a student id is attached iff some student has the email, and it is that student's id |
| Ledger.Refresh | backend/index.js:348-364 | an updated record keeps its id and feedback, takes each given request field, and becomes correct, not admin-graded, with the computed grade and the new time |
| Ledger.Inserted | backend/index.js:348-364 | an inserted record carries the request key, the default language when none is given, no feedback, and the computed grade |
| Ledger.Upsert | backend/index.js:348-364 | the result record is in the new store under the request key; other keys' records stay; an existing key keeps the store size, id and feedback; a new key is appended with a fresh id; key uniqueness is preserved and the key then has exactly one record |
| Ledger.RefreshKeepsUnique | backend/index.js:348-364 | replacing the record of a key in place keeps keys unique and leaves it the only record with that key |
| Ledger.AppendKeepsUnique | backend/index.js:348-364 | appending a record with a new key and a fresh id keeps keys unique |
| Ledger.PostSubmission | backend/index.js:329-393 | a missing email, title or code gives 400, and so does a falsy isCorrect, both with the store unchanged; otherwise 201 with the upserted record (computed grade, not admin-graded, correct, latest time, the student's id) and every other key kept |
| Ledger.Regrade | backend/index.js:446-454 | an override sets isAdminGraded, replaces grade and feedback when given, and changes no other field |
| Ledger.GradeSubmission | backend/index.js:446-454 | an id no record has gives 404 with the store unchanged; otherwise 200 with exactly that record regraded in place and key uniqueness kept |
| Ledger.ResubmissionOverridesAdminGrade | backend/index.js:349-364 | resubmitting after an admin grade restores the computed grade, clears isAdminGraded and keeps the admin's feedback and the record id |
| Ledger.ResubmissionConverges | backend/index.js:348-364 | posting the same answer twice keeps the store size and the record id, takes the later time, and leaves one record for the key |
| Ledger.NewestFirstIsTotalPreorder | backend/index.js:421 | "submittedAt descending" is a total preorder |
| Ledger.ByRecency | backend/index.js:421 | the sorted list is a permutation of its input, ordered newest first |
| Ledger.StudentStats | backend/index.js:418-428 | the list is a permutation of the student's correct records, newest first; solvedCount is its length; recentGrade is the first record's grade when truthy and null otherwise |
| Ledger.ListSubmissions | backend/index.js:431-443 | a truthy email filter keeps exactly that student's records; no filter keeps a permutation of the whole store; newest first either way |
| Ledger.RowOrderIsTotalPreorder | backend/index.js:484-496 | solvedCount descending, then email ascending, is a total preorder |
| Ledger.CorrectEmails | backend/index.js:487 | an email is listed iff some correct record has it |
| Ledger.RowsOf | backend/index.js:488 | one row per listed email, carrying that email's count |
| Ledger.Group | backend/index.js:487-488 | the `$match`/`$group` stages give one row per email with a correct record, with distinct emails, each count the number of that student's correct records, and counts summing to all correct records |
| Ledger.GroupCounts | backend/index.js:488 | each grouped row's count is its student's number of correct records, at least one |
| Ledger.GroupCovers | backend/index.js:487-488 | an email has a row iff it has a correct record |
| Ledger.DistinctSum | backend/index.js:488 | counting each distinct email's occurrences sums to the length of the list |
| Ledger.SumCountsSort | backend/index.js:490 | sorting rows does not change the sum of their counts |
| Ledger.DistinctEmailsPermutation | backend/index.js:490 | a permutation of rows with distinct emails has distinct emails |
| Ledger.PermutedRows | backend/index.js:490 | the per-row counts and the email coverage survive a permutation |
| Ledger.SolvedPerStudent | backend/index.js:484-496 | the aggregate is sorted by count descending then email ascending, has one row per solving student with that student's count, and its counts sum to the correct records |
| Ledger.AggregateAgreesWithStats | backend/index.js:418-496 | each aggregate row's count equals the solvedCount of that student's stats |
| Ledger.DeleteAll | backend/index.js:396-403 | the store is emptied and the reply counts the records removed |
| Ledger.DeleteByStudent | backend/index.js:406-415 | a falsy email gives 400 with no change; otherwise exactly that student's records go and the reply counts them |
| Ledger.DeleteOneStudent | backend/index.js:224-234 | at most one student is removed, one iff one has the email; with unique emails none remains |
| Ledger.DeleteStudentByEmail | backend/index.js:224-234 | with neither a query nor a body email the reply is 400; otherwise the query email (or else the body email) loses its student and all its submissions, and the reply counts both |
| Ledger.EasyAnswerThenAdminGrade | backend/index.js:329-454 | an Easy answer is stored with "B+" and JavaScript; an admin grade of "95" then replaces it, sets isAdminGraded and becomes the stats' recentGrade |
| Accounts.DerivedName | backend/index.js:115 | the name trimmed when it is truthy and not blank, otherwise the email's part before the first '@' |
| Accounts.RegisterDraft | backend/index.js:114-116 | the student built keeps email, username and gender, takes the hash as password and the derived name, and gets an id no stored student has |
| Accounts.RegisterStudent | backend/index.js:104-122 | 400 iff email or password is falsy; 409 when the email is taken, or when a truthy username is taken; refusals keep the collection; a success is 201 with the stored student's view (hashed password, derived name, save time), appends exactly that student after the existing ones, all kept, and keeps uniqueness |
| Accounts.RegisterServerErrorCauses | backend/index.js:116-121 | after the checks pass, a 500 comes only from a gender outside the enum or an empty username another student already has |
| Accounts.EmptyUsernameClash | backend/models/Student.js:10 | an empty username passes the route's truthiness check but collides in the sparse unique index, so a second "" gives 500 |
| Accounts.CaptureSave | backend/index.js:137-144 | the schema's rejection of the cast values gives 500 with no change; otherwise 201 with the new registration appended (hashed password, cast email, trimmed username) and uniqueness kept |
| Accounts.CaptureRegistration | backend/index.js:125-145 | 400 iff some field is falsy; 400 when the passwords differ; 409 when the email or username is registered; otherwise the save |
| Accounts.CaptureChecked | backend/index.js:134-144 | a registered email or username gives 409 with no change, otherwise the save |
| Accounts.BlankFullNameIsServerError | backend/models/registration.js:4 | a full name of spaces passes the route's check and fails the trimmed required field, so the reply is 500 |
| SubmissionModel.MissingFields | backend/models/Submission.js:4-9 | studentEmail, questionTitle and code are each reported iff missing or empty |
| SubmissionModel.WithDefaults | backend/models/Submission.js:8-16 | language defaults to "JavaScript", isCorrect and isAdminGraded to false, submittedAt to the creation time; every given value (the three required strings, isCorrect, isAdminGraded, submittedAt, language and the optional fields) is kept as given |
| SubmissionModel.Create | backend/models/Submission.js:3-17 | a save succeeds iff the three required fields are present, with the defaults applied; a failure names at least one field |
| QuestionModel.CastSolution | backend/models/Question.js:11 | the solution is accepted iff present and not blank, and is stored trimmed |
| QuestionModel.Create | backend/models/Question.js:3-16 | a question saves iff its solution is non-blank; it gets the id, the trimmed solution and createdAt defaulting to now, and no other field changes |
| QuestionModel.WhitespaceSolutionRejected | backend/models/Question.js:11 | a whitespace-only solution is trimmed to "" and fails the minimum length |
| StudentModel.ParseGender | backend/models/Student.js:12 | a gender is accepted iff it is "Male", "Female" or "Prefer not to say" |
| StudentModel.IndexOfId | backend/models/Student.js:3-17 | finds the stored student with the id, or reports that none has it |
| StudentModel.Save | backend/models/Student.js:3-22 | a save needs email and password and a gender in the enum; a success stamps updatedAt with the save time, keeps the email unique and a given username unique among students that have one; a new id is appended and a stored id replaced in place, so every other student is kept and none added |
| StudentModel.ReplaceKeepsUnique | backend/models/Student.js:5-10 | replacing a student by one that clashes with no other keeps email, username and id unique |
| RegistrationModel.CastTrimmed | backend/models/registration.js:4-7 | a string field survives iff present and not blank, and is stored trimmed |
| RegistrationModel.Cast | backend/models/registration.js:3-12 | the cast succeeds iff every required field is non-blank and the gender is in the enum; the email is trimmed and lower-cased, the other strings trimmed |
| RegistrationModel.Create | backend/models/registration.js:3-12 | a cast failure is a validation error; a success appends the cast registration under a fresh id; a duplicate key is refused; uniqueness of email and username is kept |
| RegistrationModel.AppendFresh | backend/models/registration.js:5-6 | appending a registration whose email and username no stored one has keeps both unique |
| RegistrationModel.CastIgnoresId | backend/models/registration.js:3-12 | whether the cast succeeds does not depend on the id |
| Output.Capture | frontend/src/SolutionPage.js:124-128 | each log call adds its arguments joined by one space and a newline, so non-empty capture ends with "\n" |
| Output.CaptureAppend | frontend/src/SolutionPage.js:124-128 | capturing two runs of calls is the concatenation of their captures |
| Output.LogLines | frontend/src/SolutionPage.js:127 | one line per call, its arguments joined by a space |
| Output.CaptureSplits | frontend/src/SolutionPage.js:124-128 | splitting the capture at newlines gives the logged lines followed by one empty piece |
| Output.CaptureNoCR | frontend/src/SolutionPage.js:124-128 | arguments without line breaks give a capture without "\r" |
| Output.UnifyLineEndings | frontend/src/SolutionPage.js:118 | the result has no "\r", is no longer than the input, and adds no character other than "\n" |
| Output.UnifyWithoutCR | frontend/src/SolutionPage.js:118 | text without "\r" is unchanged |
| Output.UnifyAppend | frontend/src/SolutionPage.js:118 | unification distributes over concatenation when the left part does not end in "\r" |
| Output.NormalizeLinesClean | frontend/src/SolutionPage.js:320-325 | the normalised lines contain no line break, are trimmed and are non-empty |
| Output.NormalizeShape | frontend/src/SolutionPage.js:116-122 | the normalised text has no "\r", splits back into the normalised lines, and is empty iff there are none |
| Output.Normalize | frontend/src/SolutionPage.js:116-122 | the generic path's `normalize`: the normalised lines joined by LF; NormalizeShape, NormalizeIdempotent and NormalizeCapture state its contract |
| Output.NormalizeLines | frontend/src/SolutionPage.js:320-325 | `normalizeLines`: unified line endings, split on LF, each line trimmed, empty ones dropped; NormalizeLinesClean and NormalizeLinesAppend state its contract |
| Output.NormalizeIdempotent | frontend/src/SolutionPage.js:116-122 | normalising twice is normalising once, for the text and for its lines |
| Output.NormalizeLinesAppend | frontend/src/SolutionPage.js:116-122 | line order is kept: two texts joined by a newline normalise to the concatenation of their lines |
| Output.NormalizeCapture | frontend/src/SolutionPage.js:116-128 | the normalised capture is the trimmed log lines with the empty ones dropped |
| Output.NormalizeLinesOneLine | frontend/src/SolutionPage.js:116-122 | a single non-blank line normalises to itself trimmed |
| Output.PaddedLine | frontend/src/SolutionPage.js:116-122 | one character surrounded by spaces and line breaks normalises to that character alone |
| Output.NormalizeLaws | frontend/src/SolutionPage.js:116-122 | the normaliser splits at line breaks, keeps a padded single character and drops blank text |
| Output.NormalizeExample | frontend/src/SolutionPage.js:114-147 | " 1 \n\n2\n3 " normalises like "1\n2\n3", and "2\n1\n3" does not |
| Output.LinesMatchGivesTokensMatch | frontend/src/SolutionPage.js:327-354 | equal normalised lines imply equal normalised tokens |
| Output.Tokens | frontend/src/SolutionPage.js:327-332 | `normalizeTokens`: the normalised lines joined by a space, split on white space, empty pieces dropped, joined by one space; LinesMatchGivesTokensMatch relates it to the line comparison |
| Patterns.ScanStandaloneNumber | frontend/src/SolutionPage.js:310 | the scan finds a run of digits between word boundaries iff `/\b\d+\b/` would match |
| Patterns.WitnessAtBoundary | frontend/src/SolutionPage.js:310 | a maximal word ending at a boundary is a match iff it is all digits |
| Patterns.NoWitnessInsideWord | frontend/src/SolutionPage.js:310 | no match ends in the middle of a word |
| Patterns.SkipSpaces | frontend/src/SolutionPage.js:314 | `\s*` stops at the first non-space character or the end |
| Patterns.FunctionMatchAtMeansForm | frontend/src/SolutionPage.js:314 | the scan for `function\s+printNumbers\s*\(` at a position agrees with its definition |
| Patterns.ArrowMatchAtMeansForm | frontend/src/SolutionPage.js:314 | the scan for `const\s+printNumbers\s*=\s*\(` at a position agrees with its definition |
| Patterns.ArrowFormGivesMatch | frontend/src/SolutionPage.js:314 | every text of the arrow form is found by the scan |
| Patterns.DeclaresPrintNumbersMeansForm | frontend/src/SolutionPage.js:314 | the code declares printNumbers iff one of the two forms occurs at some position |
| Grader.TitleKey | frontend/src/SolutionPage.js:111 | the key is the lower-cased title, or "" without one, of the same length |
| Grader.Dispatch | frontend/src/SolutionPage.js:111-374 | a truthy expected output selects the generic path; otherwise the first matching title test in the order hello world, sum+variable, sum+array, even/odd, print numbers; no match means unrecognised |
| Grader.PreCheck | frontend/src/SolutionPage.js:153-316 | each strategy fails with its reason exactly when its substrings (or the printNumbers forms) are absent, and the generic and unrecognised paths have no pre-check |
| Grader.HelloWorldCheckReduces | frontend/src/SolutionPage.js:155-167 | the hello-world checks reduce to needing "console.log", then "Hello" or "World" |
| Grader.GenericCheck | frontend/src/SolutionPage.js:114-151 | a throwing run fails; otherwise success holds iff the normalised capture equals the normalised expected output |
| Grader.Execute | frontend/src/SolutionPage.js:169-366 | hello world succeeds iff the capture greets; the sum, array and even/odd paths iff the call returns 8, 15 or 'Odd'; a throw is a syntax error; print numbers uses the question's expected output or the default |
| Grader.PrintNumbersCheck | frontend/src/SolutionPage.js:318-366 | success iff printNumbers is found, runs without throwing, and its lines or its tokens match the expected output; a missing function and a throw fail with their reasons |
| Grader.LinesMatch | frontend/src/SolutionPage.js:350-353 | the line comparison of the print-numbers path: equal normalised lines joined by LF |
| Grader.Validate | frontend/src/SolutionPage.js:108-374 | a truthy expected output alone decides; an unrecognised title fails; otherwise a failed pre-check decides before anything runs, and else the strategy's run |
| Grader.PreCheckFailsBeforeRunning | frontend/src/SolutionPage.js:153-316 | when a pre-check fails the verdict is a failure and does not depend on the run |
| Grader.UnrecognizedAlwaysFails | frontend/src/SolutionPage.js:368-373 | a title matching no test fails with the fixed reason |
| Grader.ExpectedOutputOverridesTitle | frontend/src/SolutionPage.js:114-151 | with the same truthy expected output the title does not matter |
| Grader.PrintNumbersDecidedByTokens | frontend/src/SolutionPage.js:348-356 | once printNumbers runs, success is exactly equality of the token-normalised outputs |
| Grader.PrintNumbersDefault | frontend/src/SolutionPage.js:349 | without an expected output the print-numbers path compares against "1\n2\n3\n4\n5" |
| Grader.GenericExample | frontend/src/SolutionPage.js:114-147 | a run printing " 1 \n\n2\n3 " passes against "1\n2\n3"; one printing "2\n1\n3" fails |
| SubmitClient.Edit | frontend/src/SolutionPage.js:931 | typing sets the code and clears hasSubmitted and lastRunSuccess, leaving the rest |
| SubmitClient.ResetCode | frontend/src/SolutionPage.js:518-523 | reset restores the starter code and blanks the output, leaving the flags |
| SubmitClient.RunCode | frontend/src/SolutionPage.js:474-503 | blank code fails without grading and clears lastRunSuccess; otherwise the verdict is shown and becomes lastRunSuccess and the result |
| SubmitClient.RunSucceedsOnlyIfAccepted | frontend/src/SolutionPage.js:474-496 | a run succeeds only for non-blank code the code validator accepts |
| SubmitClient.Bases | frontend/src/SolutionPage.js:407-414 | the bases are the configured one, the two local hosts and the page origin, in that order, with empty ones dropped |
| SubmitClient.BasePaths | frontend/src/SolutionPage.js:415-419 | each base is followed by "/api/submissions" then "/submissions" |
| SubmitClient.Endpoints | frontend/src/SolutionPage.js:416-419 | the four fixed origin and relative URLs come first, then each base with both paths |
| SubmitClient.EndpointsWithoutOrigin | frontend/src/SolutionPage.js:406-419 | with no configured base and no origin there are 8 candidates, the fifth on localhost |
| SubmitClient.FirstAccepted | frontend/src/SolutionPage.js:423-443 | the index found is the first whose reply is ok, or none when no reply is |
| SubmitClient.TryEndpoints | frontend/src/SolutionPage.js:420-443 | the loop stops at the first ok reply and has tried exactly the URLs up to it, or all of them |
| SubmitClient.EmailToUse | frontend/src/SolutionPage.js:389 | the trimmed prop email when it is not blank, otherwise the stored email or "" |
| SubmitClient.MakePayload | frontend/src/SolutionPage.js:395-405 | the payload carries the resolved email, the code and output, isCorrect true, the stored id only when truthy, and the language or "JavaScript" |
| SubmitClient.Idle | frontend/src/SolutionPage.js:511-515 | only the submitting flag is cleared |
| SubmitClient.SubmitSolution | frontend/src/SolutionPage.js:383-472 | refused without a successful run; refused before any request without an email; otherwise the payload goes to the endpoints in order, and the first ok reply marks it submitted; when none accepts, exactly one local record (correct, no grade) is prepended, or with broken storage the tried URLs are reported |
| SubmitClient.OfflineAddsOneRecord | frontend/src/SolutionPage.js:444-463 | when every endpoint fails, storage gains exactly one record and the submission counts as done |
| SubmitClient.SubmitClick | frontend/src/SolutionPage.js:505-516 | corrected (see Findings; as written: SubmitClickAsWritten): a click while submitting does nothing; otherwise a post happens iff the last run, or a fresh one, succeeded and an email resolves, and the flag is cleared after |
| SubmitClient.SubmitClickAsWritten | frontend/src/SolutionPage.js:505-516 | as written: a click while submitting does nothing; without a successful last run nothing is posted and storage is untouched, even when the fresh run passes; with one, the submission goes ahead |
| SubmitClient.StaleRunFlag | frontend/src/SolutionPage.js:505-516 | with an unrun editor whose code passes, the click as written refuses to submit while the corrected click posts |
| SubmitClient.ClickPostsOnlyAfterSuccess | frontend/src/SolutionPage.js:505-516 | a click posts only when the last run succeeded or the code validator accepts the code |
| AdminSubmissions.OfflineReloadDuplicates | frontend/src/AdminSubmissionsPage.jsx:20-25 | as written, reloading twice while the server is down shows the stored records twice |
| AdminSubmissions.Load | frontend/src/AdminSubmissionsPage.jsx:11-27 | corrected (see Findings; as written: LoadAsWritten): the stored records come first, then the server list (or, when it failed, the previous list without stored records); the stats are replaced only when fetched |
| AdminSubmissions.LoadAsWritten | frontend/src/AdminSubmissionsPage.jsx:10-26 | as written: the stats are replaced only when fetched; OfflineReloadDuplicates states how the stored records are prepended to the previous list |
| AdminSubmissions.OfflineReloadIsStable | frontend/src/AdminSubmissionsPage.jsx:20-25 | with the correction, reloading while offline shows the same list again |
| AdminSubmissions.GroupInOrder | frontend/src/AdminSubmissionsPage.jsx:57-62 | the map built partitions the entries: distinct keys (email or "Unknown"), each group exactly its key's entries in order, and a group for every entry |
| AdminSubmissions.Partition | frontend/src/AdminSubmissionsPage.jsx:56-63 | groups with distinct keys, each exactly its key's entries in order and non-empty, and a group for every entry |
| AdminSubmissions.AddToGroups | frontend/src/AdminSubmissionsPage.jsx:59-61 | the `forEach` step: push onto the group with the entry's key, or start a new one; AddKeepsPartition states that it keeps a partition |
| AdminSubmissions.AddKeepsPartition | frontend/src/AdminSubmissionsPage.jsx:58-62 | adding one entry to the map keeps it a partition of the longer list |
| AdminSubmissions.AddToExisting | frontend/src/AdminSubmissionsPage.jsx:60-61 | pushing onto the group of an existing key keeps the partition |
| AdminSubmissions.AddNew | frontend/src/AdminSubmissionsPage.jsx:60-61 | a new key's one-entry group keeps the partition |
| AdminSubmissions.EmailOrderIsTotalPreorder | frontend/src/AdminSubmissionsPage.jsx:65 | the email comparison is a total preorder |
| AdminSubmissions.Students | frontend/src/AdminSubmissionsPage.jsx:56-67 | the groups partition the entries and are sorted by email ascending |
| AdminSubmissions.PartitionPermutation | frontend/src/AdminSubmissionsPage.jsx:65 | reordering the groups keeps the partition |
| AdminSubmissions.ExactlyOneGroup | frontend/src/AdminSubmissionsPage.jsx:56-67 | every submission is in exactly one group, the one of its key |
| AdminSubmissions.AutoSelectSmallest | frontend/src/AdminSubmissionsPage.jsx:69-73 | a choice already made is kept; otherwise the smallest key among the entries is chosen |
| AdminSubmissions.AutoSelect | frontend/src/AdminSubmissionsPage.jsx:69-73 | the effect: the first group's email when nothing is chosen; its meaning is stated by AutoSelectSmallest |
| AdminSubmissions.Filtered | frontend/src/AdminSubmissionsPage.jsx:75-77 | the whole list when no student is chosen, otherwise exactly the entries with that email |
| AdminSubmissions.ChosenGroupIsShown | frontend/src/AdminSubmissionsPage.jsx:56-77 | choosing a student's group shows exactly that group's items |
| AdminSubmissions.SolvedCount | frontend/src/AdminSubmissionsPage.jsx:79-83 | the first server row for the email gives the count; with none, the number of correct entries with the email |
| AdminSubmissions.CountsOverServerList | frontend/src/AdminSubmissionsPage.jsx:79-83 | counting over the server list as received gives the server's own count |
| AdminSubmissions.SolvedCountAgreesWithServer | frontend/src/AdminSubmissionsPage.jsx:79-83 | over the server's list and aggregate, the count shown is the student's number of correct records |
| AdminSubmissions.GradesFor | frontend/src/AdminSubmissionsPage.jsx:86-87 | the grades read are those of the entries with the email and a grade, one per such entry, in list order |
| AdminSubmissions.GradesForReads | frontend/src/AdminSubmissionsPage.jsx:86-89 | none of the selected grades reads as a number iff none of the student's grades does |
| AdminSubmissions.AverageGrade | frontend/src/AdminSubmissionsPage.jsx:85-92 | null iff no grade of the student reads as a number; otherwise the mean of the readings of the student's grades (times their number it is their sum), which is non-negative |
| AdminSubmissions.NonNegativeAverage | frontend/src/AdminSubmissionsPage.jsx:90-91 | the mean of non-negative readings is non-negative |
| AdminSubmissions.LetterGradeIsKept | frontend/src/AdminSubmissionsPage.jsx:88 | a grade with no digit or dot, such as "B+", reads as 0 and is averaged in |
| AdminSubmissions.Regraded | frontend/src/AdminSubmissionsPage.jsx:108-109 | grade and feedback are set and nothing else changes |
| AdminSubmissions.GradeLocal | frontend/src/AdminSubmissionsPage.jsx:104-115 | no stored record with the id means no change; otherwise only the first with the id is regraded and every other entry is kept |
| AdminSubmissions.LastGradeWins | frontend/src/AdminSubmissionsPage.jsx:104-115 | grading a stored record twice is grading it once with the second values |
| AdminSubmissions.SendGrade | frontend/src/AdminSubmissionsPage.jsx:100-163 | nothing selected does nothing; a stored record found locally is graded offline; otherwise the server's answer decides and the stored list is unchanged |
| AdminSubmissions.FallbacksNeverSave | frontend/src/AdminSubmissionsPage.jsx:128-160 | the fallbacks after a failed or throwing PUT never save locally |
| AdminSubmissions.DropLeadingSlash | frontend/src/AdminSubmissionsPage.jsx:38 | `p.replace(/^\//,'')` drops one leading slash and nothing else |
| AdminSubmissions.ApiVariantLosesSlash | frontend/src/AdminSubmissionsPage.jsx:38 | as written the "/api" variant of "/submissions" is "/apisubmissions" |
| AdminSubmissions.ApiVariant | frontend/src/AdminSubmissionsPage.jsx:38 | corrected (see Findings; as written: ApiVariantAsWritten): "/api" followed by the path with exactly one slash between |
| AdminSubmissions.ApiVariantAsWritten | frontend/src/AdminSubmissionsPage.jsx:38 | as written: "/api", a slash only when the path has none, then the path without its leading slash; ApiVariantLosesSlash states its effect |
| AdminSubmissions.RelativeUrls | frontend/src/AdminSubmissionsPage.jsx:38 | each path is followed by its variant |
| AdminSubmissions.BaseUrls | frontend/src/AdminSubmissionsPage.jsx:40 | for one base, each path gives base+p then base+"/api"+p |
| AdminSubmissions.OffsetIsProduct | frontend/src/AdminSubmissionsPage.jsx:39-41 | the block of base b starts after b blocks of width 2·paths |
| AdminSubmissions.AllBaseUrls | frontend/src/AdminSubmissionsPage.jsx:39-41 | the base-qualified block has two URLs per base and path |
| AdminSubmissions.AllBaseUrlsAt | frontend/src/AdminSubmissionsPage.jsx:39-41 | the URLs for base b and path k sit at their computed positions |
| AdminSubmissions.DeleteUrls | frontend/src/AdminSubmissionsPage.jsx:29-41 | corrected (see Findings; as written: DeleteUrlsAsWritten): the relative pairs (p, then its "/api" variant) come first, then every base with every path and its "/api" form |
| AdminSubmissions.DeleteUrlsAsWritten | frontend/src/AdminSubmissionsPage.jsx:29-41 | as written: the same list built with the as-written variant; SecondDeleteUrl states where they differ |
| AdminSubmissions.SecondDeleteUrl | frontend/src/AdminSubmissionsPage.jsx:38 | the second URL tried for "/submissions" is "/apisubmissions" as written and "/api/submissions" when corrected |
| AdminSubmissions.FirstDeleted | frontend/src/AdminSubmissionsPage.jsx:43-49 | the index found is the first ok reply from the start point, or none |
| AdminSubmissions.LastStatus | frontend/src/AdminSubmissionsPage.jsx:42-48 | a non-zero last status came from some reply; with only network failures it stays 0 |
| AdminSubmissions.TryDelete | frontend/src/AdminSubmissionsPage.jsx:42-50 | deletion succeeds iff some URL answers ok, after exactly the attempts up to it; otherwise every URL is tried and the last status is reported |
| StudentProfile.LocalSubmissions | frontend/src/StudentProfile.jsx:29-36 | exactly the stored records whose email is the profile's, each with its stored multiplicity |
| StudentProfile.NewerFirstIsTotalPreorder | frontend/src/StudentProfile.jsx:40 | the newer-first comparison is a total preorder |
| StudentProfile.Merged | frontend/src/StudentProfile.jsx:38-41 | a permutation of server then local, sorted by submittedAt descending |
| StudentProfile.MergedShowsBoth | frontend/src/StudentProfile.jsx:38-41 | every server and local record is shown, the length is the sum, and the first is the newest |
| StudentProfile.ProfileTotals | frontend/src/StudentProfile.jsx:43-52 | the total is the list length and the solved count the correct ones, never more; average and best are null together, exactly when no grade reads as a number; best is a reading and at least every reading; the average is the mean of the readings (times their number it is their sum), and 0 ≤ average ≤ best |
| StudentProfile.AverageBelowBest | frontend/src/StudentProfile.jsx:49-50 | the mean of non-negative readings lies between 0 and their maximum |
| StudentProfile.BestOfGrades | frontend/src/StudentProfile.jsx:46-50 | the readings are empty iff no grade reads; otherwise the maximum bounds every reading and is one of them |
| StudentProfile.ServerListSolved | backend/index.js:418-425 | every record of the server's stats list is correct |
| StudentProfile.SolvedOfMerge | frontend/src/StudentProfile.jsx:38-45 | the solved count of the merge is the sum of the two lists' |
| StudentProfile.SolvedAtLeastServerCount | frontend/src/StudentProfile.jsx:38-51 | the profile's solved count is at least the server's solvedCount |
| StudentProfile.Initials | frontend/src/StudentProfile.jsx:54-58 | one or two capitals A-Z; "ST" for a falsy email |
| StudentProfile.InitialsOfTwoLetters | frontend/src/StudentProfile.jsx:56-57 | a local part starting with two letters gives them upper-cased |
| StudentProfile.InitialsWithoutLetters | frontend/src/StudentProfile.jsx:56-57 | a local part without letters gives "ST" |
| StudentProfile.InitialsOfFirstLetters | frontend/src/StudentProfile.jsx:56-57 | the first two letters of the local part, wherever they stand, upper-cased |
| StudentProfile.InitialsOfOneLetter | frontend/src/StudentProfile.jsx:56-57 | a local part with one letter gives that letter alone, upper-cased |
| StudentProfile.InitialsIgnoreDomain | frontend/src/StudentProfile.jsx:56-57 | "1a.b2@xy" gives "AB": only the part before the first '@' counts |
| StudentProfile.HasFeedback | frontend/src/StudentProfile.jsx:149 | feedback is shown when it is a string that is not blank after trim; its meaning is stated by DetailOf |
| StudentProfile.HasGradeValue | frontend/src/StudentProfile.jsx:150 | a grade is shown when it is present and not blank after trim; its meaning is stated by DetailOf and GradeBadgeOf |
| StudentProfile.GradeBadgeOf | frontend/src/StudentProfile.jsx:170-175 | the badge shows the grade iff it is present and not blank, and otherwise says pending |
| StudentProfile.BadgeIgnoresAdminFlag | frontend/src/StudentProfile.jsx:172-174 | isAdminGraded does not change the badge |
| StudentProfile.DetailOf | frontend/src/StudentProfile.jsx:148-166 | the detail block is absent iff neither grade nor feedback is non-blank; each part is shown iff it is non-blank, with its own text |
| AdminDashboard.Subs | frontend/src/AdminDashboard.jsx:54-70 | the remote list (when fetched) followed by the stored records |
| Entries.FromServer | frontend/src/AdminSubmissionsPage.jsx:12-13 | a server document as the pages see it: its `_id`, no `_localId`, and its fields |
| Entries.FromLocal | frontend/src/SolutionPage.js:446-459 | a stored record as the pages see it: its `_localId`, no `_id`, no feedback and not admin-graded |
| AdminDashboard.EmailList | frontend/src/AdminDashboard.jsx:73-79 | an email is listed iff some entry has it as a non-blank string |
| AdminDashboard.EmailSet | frontend/src/AdminDashboard.jsx:73-79 | the set of those emails |
| AdminDashboard.UserCountIsDistinctEmails | frontend/src/AdminDashboard.jsx:73-79 | the user count is the number of distinct counted emails |
| AdminDashboard.EmailSetOfConcat | frontend/src/AdminDashboard.jsx:64-79 | the emails of remote then local are the union of both |
| AdminDashboard.AggregateEmails | frontend/src/AdminDashboard.jsx:80-88 | the fallback collects the truthy emails of the aggregate rows |
| AdminDashboard.Users | frontend/src/AdminDashboard.jsx:73-88 | the submission emails when there are any; only otherwise the aggregate's, or none when it failed |
| AdminDashboard.FallbackOnlyWhenEmpty | frontend/src/AdminDashboard.jsx:80-88 | with one counted email the aggregate makes no difference |
| AdminDashboard.InitialLoad | frontend/src/AdminDashboard.jsx:39-92 | a non-zero backend count is kept, otherwise the user count is the set size; a throwing fallback leaves the backend count (or 0); the submission count is the remote list's length or 0 |
| AdminDashboard.Refresh | frontend/src/AdminDashboard.jsx:174-215 | the user count is the set size unless the fallback request threw, which leaves the count the backend request set, or the previous one; the submission count changes only when the list was fetched |
| AdminDashboard.LoadsAgreeWithoutBackend | frontend/src/AdminDashboard.jsx:89-214 | without a non-zero backend count both loads give the same user count (when the fallback threw, also needing a backend count or a previous 0); once the fallback has not thrown, the refresh ignores the backend count |
| AdminDashboard.UnreachableRefreshKeepsCount | frontend/src/AdminDashboard.jsx:199-215 | with nothing fetched and nothing stored, a thrown fallback keeps the previous user count while an answer without rows sets 0 |
| AdminDashboard.Defaults | frontend/src/AdminDashboard.jsx:130-171 | three sample questions without ids, numbered 1 to 3 |
| AdminDashboard.QuestionSource | frontend/src/AdminDashboard.jsx:95-172 | the API list whenever fetched, even empty; otherwise a non-empty stored list; otherwise the samples |
| AdminDashboard.EmptyServerListShown | frontend/src/AdminDashboard.jsx:100-108 | an empty list from the API is shown as empty |
| AdminDashboard.SamplesOnlyAsLastResort | frontend/src/AdminDashboard.jsx:95-172 | the samples appear only when the API failed and storage held nothing |
| AdminDashboard.EditList | frontend/src/AdminDashboard.jsx:228-253 | on an ok answer each question with the edited one's `_id` becomes the server's copy; everything else, and every question on failure, stays |
| AdminDashboard.EditIdempotent | frontend/src/AdminDashboard.jsx:246-249 | saving the same edit twice changes nothing more |
| AdminDashboard.EditReplacesOne | frontend/src/AdminDashboard.jsx:246-249 | with distinct ids exactly the edited question is replaced |
| AdminDashboard.EditOfSampleHitsAllSamples | frontend/src/AdminDashboard.jsx:246-249 | samples share the missing `_id`, so editing one replaces all three |
| AdminDashboard.CreateList | frontend/src/AdminDashboard.jsx:255-270 | on an ok answer the created question is appended, otherwise the list stays |
| AdminDashboard.DeleteList | frontend/src/AdminDashboard.jsx:312-320 | on an ok answer exactly the questions whose `_id` differs from the key remain |
| AdminDashboard.CreateThenDelete | frontend/src/AdminDashboard.jsx:255-320 | deleting a question just created with a new id gives back the list before |
| AdminDashboard.SampleDeleteKeepsAll | frontend/src/AdminDashboard.jsx:815 | a sample's key is its number, which no `_id` equals, so deleting it removes nothing |
| Navigation.Init | frontend/src/App.js:24-30 | a truthy saved email sets the email and logs the student in; everything else starts closed |
| Navigation.PageOf | frontend/src/App.js:32-127 | admin pages iff the admin is logged in; then the solution page iff a question is open; then the profile; then the student dashboard; else home, with their popups |
| Navigation.DashboardEmail | frontend/src/App.js:79 | the student's email, or "student@example.com" when empty |
| Navigation.Step | frontend/src/App.js:32-127 | an event with no handler on the page changes nothing; only admin login and logout change the admin flag; only a student login changes the student flag |
| Navigation.InitEstablishesInv | frontend/src/App.js:24-30 | at start no question waits and the login popup is closed |
| Navigation.StepKeepsInv | frontend/src/App.js:32-127 | a question waits only while the popup is open, and the popup is open only for a student not logged in, after every event |
| Navigation.AdminLogoutOnlyAdminFlags | frontend/src/App.js:36-39 | logout clears adminLoggedIn and showAdminLogin and nothing else |
| Navigation.StartWhileLoggedIn | frontend/src/App.js:68-72 | a logged-in student goes straight to the question |
| Navigation.StartThenLogin | frontend/src/App.js:73-100 | otherwise the question waits behind the popup; logging in opens it with the new email, clears the wait and saves the email |
| Navigation.StartThenClose | frontend/src/App.js:101-105 | closing the popup returns to the dashboard with nothing waiting |
| Navigation.LoginPersists | frontend/src/App.js:24-96 | the email saved at login logs the student in at the next start |
| Navigation.DashboardBackGoesHome | frontend/src/App.js:80-85 | back from the dashboard goes home with nothing waiting and the popup closed |
| StudentLogin.InitialMode | frontend/src/StudentLogin.jsx:14 | login iff the prop is "login", otherwise register |
| StudentLogin.Check | frontend/src/StudentLogin.jsx:44-58 | register passes iff name, username, email, phone and both passwords are non-empty and equal; login iff email and password are non-empty; a mismatch message only for register |
| StudentLogin.GenderNotChecked | frontend/src/StudentLogin.jsx:44-52 | the gender field takes no part in the checks |
| StudentLogin.MakeRequest | frontend/src/StudentLogin.jsx:26-38 | a throw becomes not ok, status 0, with its message as error; a reply keeps its status and is ok iff 2xx; an unparsable body becomes empty |
| StudentLogin.Submit | frontend/src/StudentLogin.jsx:40-87 | a failed check shows its message and sends nothing; otherwise one request goes out; success registers (temporary session) or logs in with the form's email and a truthy student id only; a failure always shows a message |
| StudentLogin.RequestOf | frontend/src/StudentLogin.jsx:63-77 | the body sent: every registration field in register mode, email and password in login mode |
| StudentLogin.Endpoint | frontend/src/StudentLogin.jsx:63-77 | "/registration" for a registration body, "/students/login" for credentials |
| StudentLogin.NoRequestWhenInvalid | frontend/src/StudentLogin.jsx:44-58 | an invalid form's outcome does not depend on the network |
| StudentLogin.RegisterReplies | frontend/src/StudentLogin.jsx:62-75 | ok registers; 409 says the account exists; another refusal without a body shows the default; a throw shows its message |
| StudentLogin.LoginReplies | frontend/src/StudentLogin.jsx:77-85 | ok logs in, saving a truthy student id only; a refusal shows the server's error; a throw with no message shows the default |
| StudentLogin.Toggle | frontend/src/StudentLogin.jsx:296-301 | a toggle sets the mode and clears the message |
| StudentLogin.AfterSubmit | frontend/src/StudentLogin.jsx:40-92 | a submit keeps the mode and shows the outcome's message, cleared first |
| StudentLogin.ToggleBack | frontend/src/StudentLogin.jsx:296-301 | toggling away and back only clears the message |
| Numbers.StripGrade | frontend/src/AdminSubmissionsPage.jsx:88 | the stripped grade keeps exactly the digits and dots, in order |
| Numbers.StripKeepsGradeText | frontend/src/AdminSubmissionsPage.jsx:88 | a grade of digits and dots is unchanged |
| Numbers.StripDropsOthers | frontend/src/AdminSubmissionsPage.jsx:88 | a grade with no digit or dot strips to "" |
| Numbers.StripAppend | frontend/src/AdminSubmissionsPage.jsx:88 | stripping distributes over concatenation |
| Numbers.FirstDot | frontend/src/AdminSubmissionsPage.jsx:88 | the first dot's position, or none iff there is no dot |
| Numbers.NumberOf | frontend/src/AdminSubmissionsPage.jsx:88 | `Number` of a digits-and-dots string is NaN iff it has two dots or is "." alone; otherwise a non-negative value, the digits' value when there is no dot, and "" reads 0 |
| Numbers.NatText | frontend/src/AdminSubmissionsPage.jsx:88 | the decimal text of a number is a non-empty digit string |
| Numbers.DigitsOfNatText | frontend/src/AdminSubmissionsPage.jsx:88 | reading the decimal text gives the number back |
| Numbers.NumberOfNatText | frontend/src/AdminSubmissionsPage.jsx:88 | `Number` of a whole-number grade is its value |
| Numbers.WholeGradeWithSuffix | frontend/src/AdminSubmissionsPage.jsx:88 | a whole number followed by text without digits or dots, such as "95%", reads as that number |
| Numbers.LetterGradeIsZero | frontend/src/StudentProfile.jsx:47 | a grade with no digit or dot reads 0 |
| Numbers.BPlusIsZero | frontend/src/StudentProfile.jsx:47 | "B+" reads 0 |
| Numbers.TwoDotsIsNaN | frontend/src/AdminSubmissionsPage.jsx:88-89 | a grade with two dots reads NaN and is dropped |
| Numbers.Readings | frontend/src/StudentProfile.jsx:46-48 | readings are empty iff every grade is missing or NaN |
| Numbers.ReadingsKeepReadable | frontend/src/StudentProfile.jsx:46-48 | every grade that reads contributes its value |
| Numbers.ReadingsFromGrades | frontend/src/StudentProfile.jsx:46-48 | every reading comes from some grade |
| Numbers.NumericGrades | frontend/src/StudentProfile.jsx:46-48 | the readings are non-negative, empty iff no grade reads, one per readable grade and in order, each that grade's value; a value is listed iff some present grade reads as it |
| Numbers.ReadingsInOrder | frontend/src/StudentProfile.jsx:46-48 | the readings are the values of the grades that read as numbers, one each, in list order |
| Numbers.AverageOfThreeGrades | frontend/src/StudentProfile.jsx:46-49 | "90", "80" and "80" read as 90, 80 and 80, and their mean is 250/3 |
| Numbers.Average | frontend/src/StudentProfile.jsx:49 | null iff the list is empty; otherwise the mean: times the length it is the sum |
| Numbers.AverageWithin | frontend/src/StudentProfile.jsx:49 | the mean lies within any bounds of the readings |
| Numbers.Best | frontend/src/StudentProfile.jsx:50 | null iff the list is empty; otherwise a member at least every element |
| Text.Trim | backend/index.js:115 | the result is the text with white space removed from both ends: an infix with only white space before and after it, not itself starting or ending with white space, and empty iff the text is all white space |
| Text.TrimIdempotent | backend/index.js:115 | trimming twice is trimming once |
| Text.LocalPart | backend/index.js:115 | the whole text when it has no '@'; otherwise the prefix that ends just before the first '@' |
| Text.Or | frontend/src/SolutionPage.js:389 | `a \|\| b` on a possibly missing string: the string when truthy, else the fallback |
| Text.ToLower | frontend/src/SolutionPage.js:111 | lower-casing maps each character and keeps the length |
| Text.SplitJoin | frontend/src/SolutionPage.js:119-122 | joining lines without newlines and splitting at newlines gives the lines back |
| Text.JoinSplit | frontend/src/SolutionPage.js:119-122 | splitting at newlines and joining with newlines gives the text back |

## Left out

- Running student code (`eval`) is an oracle parameter: it either throws or finishes with the logged argument lists and a returned value.
- The message texts of the code validator are reduced to tags carrying the data they show (expected and actual output). The emoji prose is not modelled.
- HTTP routing, MongoDB queries and `localStorage`/`sessionStorage` are not modelled as I/O. Stores are sequences passed in and returned, `fetch` is a function of the attempt, and JSON that fails to parse, or is not an array, is an absent value. The one exception is the dashboard's `/stats/students` fallback: there a throw from `fetch` or `json()` is its own case, because it skips the user-count update.
- bcrypt hashing, JWT signing and mail are foreign libraries. The hash is a parameter of the two sign-up routes, and the login, `/me`, name-update and listing routes are not part of this model.
- Clock readings and the random `_localId` are parameters. Dates are integer timestamps, so `new Date(...)` parsing and `toISOString` are not modelled.
- AdminSubmissions.AverageGrade: returns the exact mean as a real number, without the `toFixed(1)` rounding and string form, and without floating-point error.
- StudentProfile.ProfileTotals: averages over reals rather than IEEE doubles.
- Numbers.NumberOf: `Number` is modelled only on the digits-and-dots strings that the stripping produces, not on arbitrary text.
- Text.ToLower: case mapping is ASCII-only. `localeCompare` is modelled as code-point order. Both differ from the browser for non-ASCII text.
- The validator's outer `catch` (SolutionPage.js:375-380) and the login popup's outer `catch` (StudentLogin.jsx:88-91) cover throws the model has none of.
- `runCode`'s `isRunning` flag, the loading flags and every rendered style are presentation.
- The dashboard's question refresh effects, and its pages for solutions and question forms beyond the list updates, are UI wiring.
- `tryDeleteVariants` is defined but never called in AdminSubmissionsPage.jsx; the model gives its URL list and loop.
- The sort in `students` is Array.prototype.sort. The model proves the result sorted and a partition, but does not prove that the sort is stable. With distinct keys this makes no difference.
- Navigation.Step: the `isTemporarySession` flag of a registration login is not distinguished from a real login in App.js, so the model does not distinguish it either.
- AdminLogin.js, AdminLogin.jsx, StudentDashboard.jsx, ThinkCodeHomePage.jsx and apiConfig.js are not part of this model, and neither are the unmounted questions router and the maintenance scripts.
- The Mongoose behaviours relied on are stated in the modules that use them:
  - undefined keys are dropped from `$set`;
  - `setDefaultsOnInsert` applies the default language;
  - schema setters (trim, lowercase) also apply to query filters;
  - a required string rejects "";
  - an enum rejects other values.

## Findings

| source | as written | input that shows it | evidently intended | confidence | as-written member | corrected member |
|---|---|---|---|---|---|---|
| frontend/src/SolutionPage.js:505-516 | `handleSubmitClick` runs the code when no run has succeeded, but `submitSolution` then reads the `lastRunSuccess` of the render that started the click, which is still false | an unrun editor whose code passes, and a click on Submit | a run that passes inside the click lets the submission go ahead | not executed | SubmitClient.StaleRunFlag | SubmitClient.SubmitClick |
| frontend/src/AdminSubmissionsPage.jsx:38 | the `/api` variant adds a slash only when the path has none and also strips the leading one | path "/submissions" gives "/apisubmissions" | "/api/submissions" | not executed | AdminSubmissions.SecondDeleteUrl | AdminSubmissions.DeleteUrls |
| frontend/src/AdminSubmissionsPage.jsx:20-25 | the stored records are prepended to the previous list, which already holds them when the server fetch failed | one stored record, the server unreachable, and `load` run twice (as after an offline grade) | the stored records shown once | not executed | AdminSubmissions.OfflineReloadDuplicates | AdminSubmissions.Load |
