# EduVerse Nexus platform: a verified model of its core

EduVerse is a university platform in which students enrol in courses,
work through course materials and earn EduPoints on a blockchain for
enrolling and for reaching completion milestones. This project models in
Dafny the parts of it that decide things. Each is proved against a
statement of what it promises.

- **The course back end** (`courseController.js`).
  - `createCourse` builds sections and materials in nested loops, with per-field defaults.
  - `updateCourse` keeps every field the request leaves out.
  - `deleteCourse` refuses a course that has enrolments.
  - `enrollStudent` creates one progress row per material of the course and asks for the 5-point enrolment reward.
  - `unenrollStudent` removes exactly that student's rows for that course.
  - `completeMaterial` marks a row, computes the completion percentage and detects the milestone (25, 50, 75, 100 %) that earns points.
  - The percentage and the pagination arithmetic of `getCourseById` and `getAllCourses` are modelled too.
- **The student back end** (`studentController.js`).
  - Profile creation and COALESCE update.
  - Education history.
  - Student sign-up with unique username and e-mail.
  - Wallet connection, guarded by the `0x` + 40 hex digits pattern and by uniqueness across accounts.
  - Section-based course progress.
- **The authentication back end** (`authController.js`).
  - Registration and login, including "Invalid credentials" for both an unknown e-mail and a wrong password.
  - E-mail verification tokens, which work once.
  - Password resets, one live token per user, each valid for an hour.
  - Wallet connection by signature.
  - Student registration on the chain, with its credential.
  - The profile view, with wallets listed primary first.
- **The client helpers** (`src/utils/auth.ts`).
  - The e-mail pattern and the password pattern. Each is given as a one-pass scan with a proof that it accepts exactly the strings of a directly stated shape.
  - The wallet ownership message, from which the address can be recovered.
- **The course document** (`Course.js`).
  - The `enrollmentStatus` and `durationWeeks` virtuals.
  - Creation with the schema's required fields, bounds and defaults.
- **The wallet account registry** (`src/api/wallet.ts`).
  - The address is lower-cased on store and on lookup.
  - The address is checked before the e-mail.
  - Login checks the signature before the account.
- **The test mode** (`src/utils/testData.ts`).
  - Mock contract calls answered from fixed sample data.
  - Offer redemption and its two failures.
  - Named scenarios with a fallback to the default.
- **The registration page** (`Register.tsx`).
  - The form's validation rules.
  - The connect → register → success flow, which never steps back.

Stateful code is modelled as a class whose fields are the state it
changes: `CourseCatalog.Catalog`, `Students.StudentRecords`,
`Auth.Accounts`, `WalletRegistry.Registry`, `TestData.TestMode` and
`RegisterPage.RegistrationPage`. Each method states the whole new state.
The four store classes (`CourseCatalog.Catalog`, `Students.StudentRecords`,
`Auth.Accounts` and `WalletRegistry.Registry`) also keep their `Valid()`
invariant: unique keys, and references that point at existing rows. In the course store, `Valid()` also says
that progress rows exist exactly for the pairs (enrolled student,
material of that course), so the percentages count the course's real
materials.

The model has no I/O and no clock. Each outside result becomes a
parameter:

| outside result (source) | parameter |
|---|---|
| the point award on the blockchain | `awardSucceeds` |
| student registration on the blockchain | `chain` |
| the address recovered from a signature | `signer` / `recovered` |
| random tokens (`uuid`) | `token` strings |
| the back-end validation module | `emailOk` / `passwordOk` |
| the e-mail check of the form library | `emailOk` |
| `Math.random()` in the test mode | `draw` |
| `NOW()` / `Date.now()` | an integer clock `now`, in milliseconds |

Password hashing is idealised as `Common.HashPassword`, whose result
matches exactly its own password.

## Model

| member | source | states |
|---|---|---|
| Common.ToLower | eduverse-nexus-platform/src/api/wallet.ts:8 | `toLowerCase` on the address: same length, each letter A-Z mapped to a-z and every other character kept |
| Common.ToLowerIdempotent | eduverse-nexus-platform/src/api/wallet.ts:24-26 | lower-casing an already lower-cased address changes nothing, so the stored form is a fixed point of the lookup |
| Common.HashPassword | eduverse-nexus-platform/src/utils/auth.ts:3-6 | the stored hash matches the password it was made from |
| Common.NatToString | eduverse-nexus-platform/backend/src/controllers/courseController.js:767 | the milestone's `${m}` rendering: decimal digits, no leading zero, denoting m |
| Common.FilterAppend | eduverse-nexus-platform/backend/src/controllers/authController.js:420-430 | a `WHERE` filter keeps the rows' order: filtering a concatenation filters each part in turn |
| Progress.Percentage | eduverse-nexus-platform/backend/src/controllers/courseController.js:733-736 | `Math.round(completed / total * 100)` on the exact ratio: the unique p with 2·total·p ≤ 200·completed + total < 2·total·(p+1) |
| Progress.PercentageUnique | eduverse-nexus-platform/backend/src/controllers/courseController.js:733-736 | that rounding bound has exactly one solution, so the percentage is the round-half-up of 100·completed/total |
| Progress.PercentageMonotone | eduverse-nexus-platform/backend/src/controllers/courseController.js:733-736 | completing more materials never lowers the percentage |
| Progress.PercentageRange | eduverse-nexus-platform/backend/src/controllers/courseController.js:733-736 | k of n completed is between 0 and 100 %, 0 of n is 0 % and n of n is 100 % |
| Progress.ShownPercentage | eduverse-nexus-platform/backend/src/controllers/courseController.js:167-173 | the percentage shown is 0 when there is nothing to count and otherwise the rounded share |
| Progress.First | eduverse-nexus-platform/backend/src/controllers/courseController.js:739-743 | `find` over ascending thresholds: None iff no threshold passes, otherwise a passing threshold with no smaller one passing |
| Progress.MilestoneAsWritten | eduverse-nexus-platform/backend/src/controllers/courseController.js:738-743 | the milestone test as written (`pct >= m && pct - 100/total < m`): the reported threshold passes it and no smaller one does |
| Progress.HitAsWrittenIsSourceTest | eduverse-nexus-platform/backend/src/controllers/courseController.js:739-742 | the integer form of the test holds exactly when `pct >= m && pct - 100/total < m` holds on exact reals |
| Progress.CrossedMilestone | eduverse-nexus-platform/backend/src/controllers/courseController.js:738-743 | the intended milestone: the smallest threshold m with percentage(before) < m ≤ percentage(after), and None when no threshold is crossed |
| Progress.NoProgressNoMilestone | eduverse-nexus-platform/backend/src/controllers/courseController.js:709-743 | a call that completes nothing new crosses no milestone |
| Progress.MilestoneReportedOnce | eduverse-nexus-platform/backend/src/controllers/courseController.js:738-743 | along a run of calls whose counts do not go down, a milestone is reported at most once |
| Progress.FourMaterialsWalk | eduverse-nexus-platform/backend/src/controllers/courseController.js:738-743 | with four materials, completing them one by one reports 25, 50, 75 and 100 under both rules |
| Progress.TwoMaterialsReportFirstThreshold | eduverse-nexus-platform/backend/src/controllers/courseController.js:738-743 | only the first threshold crossed is reported: with two materials, 25 and then 75 |
| Progress.AsWrittenRepeatsMilestone | eduverse-nexus-platform/backend/src/controllers/courseController.js:738-743 | with 12 materials the test as written reports 25 % after both the 3rd and the 4th completion; the intended rule reports it once |
| Progress.AsWrittenRepeatsOnRecompletion | eduverse-nexus-platform/backend/src/controllers/courseController.js:709-743 | marking an already completed material again re-reports its milestone as written, and reports nothing under the intended rule |
| Progress.MilestoneReward | eduverse-nexus-platform/backend/src/controllers/courseController.js:754-755 | EduPoints per milestone: 5, 10, 15 and 20 |
| Progress.RewardIncreasing | eduverse-nexus-platform/backend/src/controllers/courseController.js:754-755 | a higher milestone earns strictly more points, between 5 and 20 |
| Progress.PageOffset | eduverse-nexus-platform/backend/src/controllers/courseController.js:10-11 | for any page number from the query string, the OFFSET is non-negative exactly when the page is at least 1 or the limit is 0 |
| Progress.ListCoursesStatus | eduverse-nexus-platform/backend/src/controllers/courseController.js:10-73 | the listing answers 500 exactly when the page is below 1 and the limit positive (a negative OFFSET), 200 otherwise |
| Progress.PagesAbut | eduverse-nexus-platform/backend/src/controllers/courseController.js:10-11 | page p+1 starts exactly where page p ends |
| Progress.EveryRowOnOnePage | eduverse-nexus-platform/backend/src/controllers/courseController.js:10-62 | every row lies on a page between 1 and the page count `Math.ceil(total/limit)`, inside that page's OFFSET window |
| CourseCatalog.Coalesce | eduverse-nexus-platform/backend/src/controllers/courseController.js:352-368 | COALESCE update, for each of the nine columns: a given value replaces the stored one and an absent one keeps it; sections and owner are untouched and the update time is set |
| CourseCatalog.EmptyPatchKeepsCourse | eduverse-nexus-platform/backend/src/controllers/courseController.js:352-368 | an update that gives no field changes only the update time |
| CourseCatalog.CoalesceIdempotent | eduverse-nexus-platform/backend/src/controllers/courseController.js:352-368 | sending the same update twice leaves the course as sending it once |
| CourseCatalog.FullPatchOverwrites | eduverse-nexus-platform/backend/src/controllers/courseController.js:352-368 | an update naming every column determines the result whatever was stored, sections and owner aside |
| CourseCatalog.RewardRequest | eduverse-nexus-platform/backend/src/controllers/courseController.js:525-540 | a reward is requested exactly when the student has a primary wallet, for that wallet, that amount, the given achievement name and achievement type 0 (Academic) |
| CourseCatalog.LedgerAfter | eduverse-nexus-platform/backend/src/controllers/courseController.js:542-557 | a transaction is recorded exactly when a reward was requested and succeeded; earlier entries are kept and the new one carries the wallet, the transaction type, the amount and the description |
| CourseCatalog.CompletedIn | eduverse-nexus-platform/backend/src/controllers/courseController.js:154-155 | the completed materials counted for a student and course are exactly that course's rows marked completed |
| CourseCatalog.WithoutPair | eduverse-nexus-platform/backend/src/controllers/courseController.js:603-607 | the progress DELETE of `unenrollStudent`: every row of another student or another course is kept unchanged, and only that pair's rows go |
| CourseCatalog.NewRows | eduverse-nexus-platform/backend/src/controllers/courseController.js:514-523 | enrolment adds one not-completed row per material of the course, and no other row |
| CourseCatalog.MarkCompleted | eduverse-nexus-platform/backend/src/controllers/courseController.js:709-731 | marking one row completed adds exactly that material to the completed set, so the count grows by one or (if it was already completed) not at all |
| CourseCatalog.Catalog.MaterialsOf | eduverse-nexus-platform/backend/src/controllers/courseController.js:148-153 | the materials counted for a course are exactly the materials of its sections |
| CourseCatalog.Catalog.CompletedWithinCourse | eduverse-nexus-platform/backend/src/controllers/courseController.js:148-160 | in a valid store the completed count never exceeds the course's material count |
| CourseCatalog.Catalog.SubmittedWithinCourse | eduverse-nexus-platform/backend/src/controllers/courseController.js:156-160 | the submitted assignments counted never exceed the course's assignments |
| CourseCatalog.Catalog.CreateCourse | eduverse-nexus-platform/backend/src/controllers/courseController.js:194-318 | title, description and a non-zero department are required (400); otherwise a fresh id holds the course with every default (`credit_hours` 0 or absent → 3, `is_active` true, empty strings → NULL) and its sections and materials in input order |
| CourseCatalog.Catalog.UpdateCourse | eduverse-nexus-platform/backend/src/controllers/courseController.js:321-400 | 404 for an unknown course; otherwise exactly that course becomes its COALESCE update |
| CourseCatalog.Catalog.DeleteCourse | eduverse-nexus-platform/backend/src/controllers/courseController.js:407-468 | 404 for an unknown course, 400 while anyone is enrolled, otherwise the course and its assignments are removed and nothing else changes |
| CourseCatalog.Catalog.EnrollStudent | eduverse-nexus-platform/backend/src/controllers/courseController.js:474-578 | 404 for an unknown or inactive course, 400 for a second enrolment; otherwise the pair is enrolled, one progress row per material is added, and the 5-point reward is requested and ledgered as above |
| CourseCatalog.Catalog.RequestReward | eduverse-nexus-platform/backend/src/controllers/courseController.js:745-789 | the reward step shared by enrolment and milestones: only the ledger can change, by the rule of LedgerAfter |
| CourseCatalog.Catalog.UnenrollStudent | eduverse-nexus-platform/backend/src/controllers/courseController.js:583-640 | 404 when not enrolled; otherwise the enrolment, that student's progress rows for the course and their submissions for it are removed, and nothing else |
| CourseCatalog.Catalog.MarkRow | eduverse-nexus-platform/backend/src/controllers/courseController.js:709-731 | the UPDATE and the recount: exactly one row becomes completed at `now`, and the counts before and after differ by whether it was already completed |
| CourseCatalog.Catalog.CompleteMaterial | eduverse-nexus-platform/backend/src/controllers/courseController.js:686-806 | 404 without a progress row; otherwise the row is completed, the percentage is the rounded share of the course's materials (≤ 100), the milestone is the one crossed by this call, and a reward is requested only for a milestone |
| CourseCatalog.Catalog.GetCourseById | eduverse-nexus-platform/backend/src/controllers/courseController.js:79-190 | 404 for an unknown course or one whose department is not in the departments table, as the inner join finds no row; enrolment is reported to a student viewer, and an enrolled one gets the rounded share of completed materials plus submitted assignments, at most 100 |
| CourseCatalog.EnrollTwice | eduverse-nexus-platform/backend/src/controllers/courseController.js:492-501 | a second enrolment of the same pair is refused and requests no reward |
| CourseCatalog.CompleteTwice | eduverse-nexus-platform/backend/src/controllers/courseController.js:709-743 | completing a material twice leaves it completed; the second call reports no milestone and requests no reward |
| Students.LowercasedAddressStillValid | eduverse-nexus-platform/backend/src/controllers/studentController.js:593-596 | the address pattern accepts both cases of hex digits: lower-casing a valid address keeps it valid |
| Students.AddressPatternExamples | eduverse-nexus-platform/backend/src/controllers/studentController.js:593-596 | `0x` with 40 hex digits passes; `0X`, 39 digits or a non-hex digit fail |
| Students.UpdateProfile | eduverse-nexus-platform/backend/src/controllers/studentController.js:160-176 | COALESCE update of the nine profile fields; the wallet and registration date are kept and the update time is set |
| Students.NewProfile | eduverse-nexus-platform/backend/src/controllers/studentController.js:128-143 | a first profile holds the given fields, with no wallet and no times |
| Students.UpdateProfileIdempotent | eduverse-nexus-platform/backend/src/controllers/studentController.js:160-176 | sending the same update twice gives the same profile as once |
| Students.EmptyBodyKeepsProfile | eduverse-nexus-platform/backend/src/controllers/studentController.js:160-176 | an update with no fields changes only the update time |
| Students.UpdateAfterInsert | eduverse-nexus-platform/backend/src/controllers/studentController.js:128-176 | updating a fresh profile with the fields it was created from only sets the update time |
| Students.FindSectionRow | eduverse-nexus-platform/backend/src/controllers/studentController.js:416 | `find`: None iff no progress row is for the section, otherwise the first row that is |
| Students.SectionFlags | eduverse-nexus-platform/backend/src/controllers/studentController.js:414-420 | one flag per section, in order, taken from that section's first row and false without one |
| Students.MissingRowIsIncomplete | eduverse-nexus-platform/backend/src/controllers/studentController.js:416-419 | a section without a progress row counts as not completed |
| Students.CountTrue | eduverse-nexus-platform/backend/src/controllers/studentController.js:442 | the number of completed sections: the count of `true` flags, at most the section count, equal to it iff all are completed and 0 iff none is |
| Students.StudentRecords.UpdateStudentProfile | eduverse-nexus-platform/backend/src/controllers/studentController.js:97-219 | creates the profile when there is none and otherwise COALESCE-updates it; nothing else changes |
| Students.StudentRecords.AddEducationHistory | eduverse-nexus-platform/backend/src/controllers/studentController.js:220-297 | 400 for missing required fields, 404 without a profile, otherwise exactly one entry is appended |
| Students.StudentRecords.RegisterStudent | eduverse-nexus-platform/backend/src/controllers/studentController.js:475-582 | 400 for a missing field, 409 when the username or the e-mail is taken, otherwise one user and one profile are added and the uniqueness invariant is kept |
| Students.StudentRecords.ConnectWallet | eduverse-nexus-platform/backend/src/controllers/studentController.js:583-641 | 400 missing, 400 malformed, 409 when another profile holds the address, 404 without a profile, otherwise exactly that profile gets the address |
| Students.StudentRecords.GetCourseProgress | eduverse-nexus-platform/backend/src/controllers/studentController.js:360-474 | 400 without a course, 404 when not enrolled, otherwise each section's flag in order (from its first progress row, false without one) and the rounded share of `true` flags among the sections, 0 when there are none |
| Students.ReconnectOwnWallet | eduverse-nexus-platform/backend/src/controllers/studentController.js:598-611 | connecting again the address one already holds succeeds and keeps it |
| Auth.UserByEmail | eduverse-nexus-platform/backend/src/controllers/authController.js:48-52 | the lookup finds a user with the e-mail, or reports that none has it |
| Auth.LiveToken | eduverse-nexus-platform/backend/src/controllers/authController.js:174-176 | the verification lookup finds a row with the token that has not expired, or reports that none exists |
| Auth.WithoutToken | eduverse-nexus-platform/backend/src/controllers/authController.js:192-194 | the DELETE removes every row with the token and keeps every other row |
| Auth.WalletByAddress | eduverse-nexus-platform/backend/src/controllers/authController.js:224-226 | the wallet lookup by exact address, with its not-found case |
| Auth.PrimaryWallet | eduverse-nexus-platform/backend/src/controllers/authController.js:317-319 | the user's primary wallet, or none |
| Auth.StudentOf | eduverse-nexus-platform/backend/src/controllers/authController.js:281-283 | the user's student record, or none |
| Auth.ProfileWalletsPrimaryFirst | eduverse-nexus-platform/backend/src/controllers/authController.js:420-430 | the profile's wallets are all the user's, every primary one before every other |
| Auth.ProfileWalletsArePermutation | eduverse-nexus-platform/backend/src/controllers/authController.js:420-430 | the profile lists exactly the user's wallets, each once |
| Auth.NewestPrimaryListedFirst | eduverse-nexus-platform/backend/src/controllers/authController.js:424-430 | a newer primary wallet of the user's heads the list (`is_primary DESC, created_at DESC`) |
| Auth.NewestOtherListedAfterPrimaries | eduverse-nexus-platform/backend/src/controllers/authController.js:424-430 | a newer non-primary wallet comes right after all the primaries and before the older non-primary ones |
| Auth.OtherUsersWalletIgnored | eduverse-nexus-platform/backend/src/controllers/authController.js:424-427 | another user's wallet leaves the list unchanged |
| Auth.Accounts.Register | eduverse-nexus-platform/backend/src/controllers/authController.js:31-99 | 400 for a bad e-mail, then a weak password, 409 for a taken e-mail, otherwise one unverified user with the password's hash |
| Auth.Accounts.Login | eduverse-nexus-platform/backend/src/controllers/authController.js:106-162 | the same 401 for an unknown e-mail and a wrong password, 403 for an unverified account, otherwise the last login is set |
| Auth.Accounts.VerifyEmail | eduverse-nexus-platform/backend/src/controllers/authController.js:169-204 | 400 without a live token; otherwise the user is verified and every row with the token is deleted, so the token no longer works |
| Auth.Accounts.ForgotPassword | eduverse-nexus-platform/backend/src/controllers/authController.js:462-509 | status 200 and the one notice `ResetNotice` whether or not the e-mail exists; for a user, the single reset row is replaced by the new token, expiring one hour from now |
| Auth.Accounts.ResetPassword | eduverse-nexus-platform/backend/src/controllers/authController.js:516-564 | 400 for a weak password, then for a missing or expired token; otherwise that user's password becomes the new hash and the token is gone |
| Auth.Accounts.ConnectWallet | eduverse-nexus-platform/backend/src/controllers/authController.js:211-263 | 401 unless the signer equals the address ignoring case, 409 when the address is stored for another user, otherwise a new address is inserted as a primary, verified wallet and an own one is only re-verified |
| Auth.Accounts.RegisterStudent | eduverse-nexus-platform/backend/src/controllers/authController.js:270-387 | 409 when already a student, 409 for a taken student number, 400 without a primary wallet, 500 when the chain call fails; otherwise one student and its registration credential with the chain receipt |
| Auth.Accounts.GetProfile | eduverse-nexus-platform/backend/src/controllers/authController.js:396-455 | 404 for an unknown user; otherwise the user's fields, the student record or none, and the wallets in ProfileWallets order, which the lemmas beside it show is primary first and newest first within each group |
| Auth.VerifyTwice | eduverse-nexus-platform/backend/src/controllers/authController.js:169-204 | a verification token works once: the second use is refused |
| Auth.TwoPrimaryWallets | eduverse-nexus-platform/backend/src/controllers/authController.js:236-245 | connecting two new addresses leaves the user with two primary wallets |
| Validators.ValidateEmail | eduverse-nexus-platform/src/utils/auth.ts:16-19 | accepted iff no JavaScript blank, exactly one '@', text before it and, after it, a '.' with text on both sides |
| Validators.EmailScanCorrect | eduverse-nexus-platform/src/utils/auth.ts:16-19 | the left-to-right scan of the pattern accepts exactly the strings with no JavaScript blank and exactly one '@', with text before it and, after it, a '.' with text on both sides |
| Validators.ScanClassifies | eduverse-nexus-platform/src/utils/auth.ts:17-18 | after every prefix the scan is in the state the prefix's shape dictates |
| Validators.EmailExamples | eduverse-nexus-platform/src/utils/auth.ts:16-19 | `a@b.c` and `a@.b.c` pass |
| Validators.EmailRefusals | eduverse-nexus-platform/src/utils/auth.ts:16-19 | a missing local part or a trailing dot fails |
| Validators.EmailRefusalsInside | eduverse-nexus-platform/src/utils/auth.ts:16-19 | a second '@' or a blank fails |
| Validators.ValidatePassword | eduverse-nexus-platform/src/utils/auth.ts:21-25 | accepted iff at least 8 characters, all from letters, digits and `@$!%*?&`, with a lower-case letter, an upper-case letter, a digit and one of `@$!%*?&` |
| Validators.ForeignCharRefuses | eduverse-nexus-platform/src/utils/auth.ts:23 | one character outside the allowed alphabet refuses the password |
| Validators.PasswordExamples | eduverse-nexus-platform/src/utils/auth.ts:21-25 | `Abcdef1!` passes; seven characters, `#` or a blank fail |
| Validators.WalletVerificationMessage | eduverse-nexus-platform/src/utils/auth.ts:12-14 | the ownership message is the fixed prefix followed by the address |
| Validators.MessageRecoversAddress | eduverse-nexus-platform/src/utils/auth.ts:12-14 | the address is recovered from its message |
| Validators.MessageInjective | eduverse-nexus-platform/src/utils/auth.ts:12-14 | distinct addresses get distinct messages |
| RegisterPage.IdPattern | eduverse-nexus-platform/src/pages/Register.tsx:29 | `/^[A-Za-z0-9-]+$/`: non-empty and only letters, digits and hyphens |
| RegisterPage.FormIssues | eduverse-nexus-platform/src/pages/Register.tsx:24-33 | the schema's issues: name shorter than 2, a refused e-mail, a student id shorter than 5, a student id outside the pattern, each reported on its own, and never one for the department |
| RegisterPage.FormIssuesEmptyIff | eduverse-nexus-platform/src/pages/Register.tsx:24-33 | the form goes through iff the name has 2 characters, the e-mail is accepted and the student id has 5 characters from the pattern |
| RegisterPage.DefaultFormIssues | eduverse-nexus-platform/src/pages/Register.tsx:46-54 | the untouched form reports name, e-mail and both student-id issues, and an empty department does not stop a submission |
| RegisterPage.EffectStep | eduverse-nexus-platform/src/pages/Register.tsx:92-99 | the effect: a registered student is done, a connected wallet moves the first step on, and no step goes back |
| RegisterPage.EffectIdempotent | eduverse-nexus-platform/src/pages/Register.tsx:92-99 | running the effect again on its own outcome changes nothing |
| RegisterPage.SuccessIsFinal | eduverse-nexus-platform/src/pages/Register.tsx:92-99 | nothing leaves the final step |
| RegisterPage.RegistrationPage.constructor | eduverse-nexus-platform/src/pages/Register.tsx:41-43 | the page opens on the form when a wallet is already connected, otherwise on the connect step |
| RegisterPage.RegistrationPage.HandleConnectWallet | eduverse-nexus-platform/src/pages/Register.tsx:57-64 | the page moves on to the form when `connectWallet` resolves and stays when it rejects; the shipped context always resolves it |
| RegisterPage.RegistrationPage.Submit | eduverse-nexus-platform/src/pages/Register.tsx:67-89 | the form is sent iff the schema reports nothing; the flow ends iff the sent form's `registerStudent` call resolves, and a rejection keeps the form |
| RegisterPage.RegistrationPage.Effect | eduverse-nexus-platform/src/pages/Register.tsx:92-99 | the page's step after the effect is EffectStep of the step before |
| CourseModel.Status | eduverse-nexus-platform/backend/src/models/Course.js:215-223 | exactly one of open (a seat is left), waitlist (full, waitlist enabled with capacity) and closed |
| CourseModel.StatusOpenDownward | eduverse-nexus-platform/backend/src/models/Course.js:215-217 | an open course stays open with fewer students |
| Common.CeilDiv | eduverse-nexus-platform/backend/src/models/Course.js:230-231 | `Math.ceil(a/b)`: the fewest b-sized blocks that cover a |
| CourseModel.DurationSymmetric | eduverse-nexus-platform/backend/src/models/Course.js:226-232 | the duration does not depend on the order of the two dates |
| CourseModel.DurationZeroIff | eduverse-nexus-platform/backend/src/models/Course.js:226-232 | 0 weeks exactly when the dates are equal, at least 1 otherwise |
| CourseModel.DurationWeeks | eduverse-nexus-platform/backend/src/models/Course.js:226-232 | the fewest whole weeks of 604800000 ms that cover the interval between the dates |
| CourseModel.DaysThenWeeks | eduverse-nexus-platform/backend/src/models/Course.js:229-231 | rounding up to days and then to weeks is rounding straight up to weeks |
| CourseModel.DurationIsWeekCeil | eduverse-nexus-platform/backend/src/models/Course.js:226-232 | the duration equals the interval rounded up to whole weeks |
| CourseModel.DurationExamples | eduverse-nexus-platform/backend/src/models/Course.js:226-232 | 1 ms is 1 week, 7 days is 1 week, 7 days and 1 ms is 2 weeks, and the order of the dates does not matter |
| CourseModel.DefaultGradingIsWhole | eduverse-nexus-platform/backend/src/models/Course.js:152-173 | the default weights 30/20/20/30/0 sum to 100 |
| CourseModel.InvalidPaths | eduverse-nexus-platform/backend/src/models/Course.js:62-146 | the refused paths, one condition per path: a missing or empty course code, title, description, department, academic year or syllabus; a missing instructor; missing or sub-1 credit hours; a missing or unknown semester; an unknown level; missing dates or cap |
| CourseModel.Create | eduverse-nexus-platform/backend/src/models/Course.js:62-212 | refused with exactly those paths, or built with every required value kept and each optional one given or defaulted (enrolment 0, level all-levels, no waitlist, cover image `default-course-cover.jpg`, 100 points, no certification, active, unverified, not featured, and the default grading weights) |
| CourseModel.NewCourseStatus | eduverse-nexus-platform/backend/src/models/Course.js:119-122 | a new course with no enrolment figure is open iff its cap is positive, and closed otherwise unless a waitlist is set |
| CourseModel.NewCourseGradingWhole | eduverse-nexus-platform/backend/src/models/Course.js:152-173 | a new course given no weights gets the defaults, which make up the whole grade |
| WalletRegistry.UserAt | eduverse-nexus-platform/src/api/wallet.ts:7-9 | the lookup by lower-cased address finds the user holding it, or reports that none does |
| WalletRegistry.HoldsAddressIgnoresCase | eduverse-nexus-platform/src/api/wallet.ts:24-26 | whether an address is held does not depend on the case it is asked in |
| WalletRegistry.SignMessageOmitsAddress | eduverse-nexus-platform/src/api/wallet.ts:63 | the fixed login message contains no address: no window of it is an address |
| WalletRegistry.LoginMessageIsNotVerificationMessage | eduverse-nexus-platform/src/api/wallet.ts:63-64 | the message checked at login is not the ownership message built for any address |
| WalletRegistry.Registry.CheckWalletRegistration | eduverse-nexus-platform/src/api/wallet.ts:5-19 | registered iff some user holds the lower-cased address, with that user's e-mail |
| WalletRegistry.Registry.RegisterWallet | eduverse-nexus-platform/src/api/wallet.ts:21-59 | "Wallet is already registered" first, then "Email is already in use" for the e-mail as given, otherwise exactly one user appended with the lower-cased address, the hash and the registered flag; the unique indexes are kept |
| WalletRegistry.Registry.LoginWithWallet | eduverse-nexus-platform/src/api/wallet.ts:77-100 | the signature is checked first, then "Wallet not registered", otherwise the holder's e-mail, address and flag |
| TestData.SampleCountMatchesList | eduverse-nexus-platform/src/utils/testData.ts:8-100 | the sample student's achievement count is the length of the achievement list |
| TestData.StudentSummary | eduverse-nexus-platform/src/utils/testData.ts:193-214 | the sample summary exactly for the sample address, compared as written, and the all-zero unregistered one otherwise |
| TestData.StudentAchievement | eduverse-nexus-platform/src/utils/testData.ts:216-228 | the entry iff the sample address and 0 ≤ id < 5; "Achievement not found" for another address or id ≥ 5; a negative id passes the check and faults on the missing entry |
| TestData.SimulateAsyncResponse | eduverse-nexus-platform/src/utils/testData.ts:231-249 | rejected iff the draw is below the failure chance, with the given non-empty message or else "Transaction failed"; otherwise resolved with the data |
| TestData.DefaultRejectionMessage | eduverse-nexus-platform/src/utils/testData.ts:238 | a certain failure with no message or an empty one rejects with "Transaction failed" |
| TestData.CertainOutcomes | eduverse-nexus-platform/src/utils/testData.ts:231-249 | chance 1 always rejects with its message and no options always resolves, whatever the draw |
| TestData.EduPointsBalance | eduverse-nexus-platform/src/utils/testData.ts:254-260 | '250.0' for the sample address and '0' otherwise, always resolved |
| TestData.RedeemOffer | eduverse-nexus-platform/src/utils/testData.ts:285-306 | "Offer not found" iff no offer has the id, "Offer is not active" iff the offer is inactive, otherwise that active offer |
| TestData.OfferIdsArePositions | eduverse-nexus-platform/src/utils/testData.ts:30-58 | each offer's id is its position in the list |
| TestData.RedeemableOffers | eduverse-nexus-platform/src/utils/testData.ts:285-306 | exactly the ids 0 to 4 other than 3 are redeemable, and 3 is "not active" |
| TestData.ScenarioFor | eduverse-nexus-platform/src/utils/testData.ts:366 | a known scenario's data, or the default's for any other name |
| TestData.ScenariosConsistent | eduverse-nexus-platform/src/utils/testData.ts:327-364 | in every scenario a student is present iff the wallet is connected, a connected wallet holds the sample address, and transactions come only with the sample student |
| TestData.TestMode.constructor | eduverse-nexus-platform/src/utils/testData.ts:323-369 | no or an empty name means "default", and the hook's data is that scenario's |
| TestData.TestMode.SwitchScenario | eduverse-nexus-platform/src/utils/testData.ts:371-374 | the current name becomes the one given, even an unknown one, while the data returned falls back to the default |
| TestData.TestMode.CurrentScenario | eduverse-nexus-platform/src/utils/testData.ts:376 | the current scenario name |

## Left out

- The `departments` table is not managed here. `CourseCatalog.Catalog` takes its ids at construction and keeps them fixed. CreateCourse and UpdateCourse accept any department id, as the source does. GetCourseById's inner join then answers 404 for a course whose department is missing.
- I/O, HTTP plumbing, logging, JWT signing, e-mail sending and the database connection are not modelled. Each handler becomes a method whose result names the response status.
- SQL transactions: each method is atomic. A failure after BEGIN rolls back, which shows up as the state being unchanged.
- Progress.Percentage: rounds the exact ratio. The source rounds a floating-point product, which can differ from exact rounding at a half (for example 23 of 40).
- Progress.TotalPages: requires a positive limit, because `?limit=0` gives Infinity in the source. The page and limit are numbers here: the query strings' non-numeric values and a negative limit are not modelled. PostgreSQL's refusal of a negative OFFSET is modelled only as the 500 of Progress.ListCoursesStatus.
- `getAllCourses`: only its pagination arithmetic is modelled. The search filter, the department filter and the row order are SQL text, not logic.
- Students.StudentRecords.GetCourseProgress: the course row, the enrolment row and the assignment list with submissions that the response also carries are plain reads and are not modelled.
- `getEnrolledCourses`, `getStudentProfile` and `getAcademicPerformance` are plain reads with no decision in them and are not modelled.
- The blockchain calls (`awardPoints`, student registration), `ethers.verifyMessage`, `uuid` and the back-end validation module are outside code. Their outcomes are parameters.
- Common.HashPassword: bcrypt's salting is not modelled. The hash is idealised as matching exactly its own password.
- Common.ToLower: ASCII only. JavaScript's `toLowerCase` also maps non-ASCII letters, which cannot occur in a valid address but could in the wallet registry's input.
- The three controllers use separate stores. The database's foreign keys between them (a profile's user existing, for instance) are not modelled across classes.
- The authentication middleware guarantees the caller exists. Methods that act for the signed-in user require a valid user id instead: `user < |users|` in `Auth.Accounts` (ConnectWallet, RegisterStudent) and in `Students.StudentRecords` (UpdateStudentProfile, AddEducationHistory, ConnectWallet, GetCourseProgress), whose `Valid()` also keeps every profile owned by an existing user. `Auth.Accounts.GetProfile` takes any id and answers 404 for an unknown one, as the source does when no user row is found.
- `created_at` order: the newest wallet is the last one inserted.
- Auth.PrimaryWallet: returns the first primary wallet. The source's `rows[0]` of an unordered query may be any primary wallet when a user has several.
- Submissions are a map from (student, assignment) to status, one submission per pair.
- `getCourseById`: its per-section material query is the section/material nesting itself, so the course value carries the materials.
- RegisterPage.FormIssues: the e-mail check of the form library is a parameter. Zod counts lengths in UTF-16 code units, while the model counts characters.
- RegisterPage.RegistrationPage.HandleConnectWallet and RegisterPage.RegistrationPage.Submit: their requires name the step on which the page shows the button or the form. The redirect timer and the toasts are not modelled.
- CourseCatalog.Catalog.CreateCourse: a body field sent as JSON `null` is modelled as absent. For `is_active` this differs: the source stores NULL (`is_active !== undefined ? is_active : true`), where the model stores true.
- CourseModel.Create: the `unique` index on the course code is a database constraint, not a validation, and is not modelled. The unmodelled array fields (tags, learning outcomes) have no required or default rule beyond an empty array.
- CourseModel.InvalidPaths: the Course.js string `trim` setters are not modelled. A course code, title or department of only blanks therefore counts as present here, where the source trims it to empty and refuses it.
- The sub-documents (modules, quizzes, schedule, resources) are not modelled. The full-text index is not modelled either.
- TestData: the random transaction hashes, the staking mocks and their `parseFloat` check, the timers, and `isWalletInstalled` / `checkNetwork` (constants) are not modelled. Scenario lookup treats only the six scenario names as known; prototype keys such as `toString` are not modelled.
- TestData.StudentAchievement: ids are integers. A fractional id reaches the same fault as a negative one in the source.

Behaviour of the source that the model records but does not treat as a defect:

- Registration in the authentication controller never stores the verification token it creates, so no verification row exists unless some other code adds one.
- Wallet connection in the authentication controller compares stored addresses exactly. Every new wallet is inserted as primary, so a user can hold several primary wallets (Auth.TwoPrimaryWallets).
- Student sign-up in the student controller does not check whether a wallet is already used; only wallet connection does.
- The token context's `connectWallet` (`src/context/TokenContext.tsx`) catches every failure and returns normally, including when no wallet is installed. The registration page therefore always moves on to the form after the connect button, and the stay-on-failure branch of RegisterPage.RegistrationPage.HandleConnectWallet is never taken with that context.
- The token context's value has no `registerStudent`, although the registration page reads one from it. Every submit of a valid form therefore throws, the page shows the failure toast and stays on the form, and the success step is never reached through RegisterPage.RegistrationPage.Submit.

## Findings

| source | as written | input that shows it | evidently intended | confidence | as-written member | corrected member |
|---|---|---|---|---|---|---|
| eduverse-nexus-platform/backend/src/controllers/courseController.js:738-743 | a milestone is "hit" when `pct >= m && pct - 100/total < m`, where `pct` is already rounded | 12 materials: the 3rd completion (25 %) and the 4th (33 %, and 33 − 8.33 < 25) both report 25 % and award its points twice | report a threshold only on the completion that crosses it | high; not executed | Progress.MilestoneAsWritten, shown by Progress.AsWrittenRepeatsMilestone | Progress.CrossedMilestone, with Progress.MilestoneReportedOnce |
| eduverse-nexus-platform/backend/src/controllers/courseController.js:709-743 | the test looks only at the count after the update, and the update accepts an already completed row | 4 materials with 1 done: completing that same material again reports 25 % once more | a call that completes nothing new reports nothing | high; not executed | Progress.MilestoneAsWritten, shown by Progress.AsWrittenRepeatsOnRecompletion | Progress.CrossedMilestone, with Progress.NoProgressNoMilestone |

The course store's `CompleteMaterial` uses the corrected rule.
