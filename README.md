# nest-mongo authentication core in Dafny

This project models the authentication core of a NestJS service backed by
MongoDB. It also models the upload helpers the service uses for files.

- **Lockout state machine.** `AuthService.login` counts wrong passwords on the
  user document. It locks the account when a fourth wrong password arrives
  less than five minutes after the first of three earlier failures. A correct
  password on an unlocked account resets the counter. Once the account is
  locked, every later attempt is refused. In the model, `Lockout.Decide` is a
  pure function that gives the partial update `login` writes and the outcome
  it returns or throws. `AuthService.AuthService.Login` is the imperative
  method, and its contract ties it to `Decide`.
- **Registration.** `register` rejects a confirmation that does not match the
  password, then rejects an email that is already stored. Otherwise it saves
  one new document holding the hash of the password.
- **The users collection.** `UserStore.UserCollection` is a class over a
  sequence of documents and an id counter. It provides the three operations
  the service uses: `findOne({ email })`, `findByIdAndUpdate` and `save`. Its
  invariant `Valid` says that ids are distinct, emails are distinct (the
  unique index) and every document is well-formed. `Login` and `Register`
  preserve it.
- **Upload helpers.** The image and PDF filters, the name a stored file gets
  (the text before the first dot, a dash, the upload time and Node's POSIX
  `path.extname`), and the projection of uploaded files into responses.

The password hash (bcrypt `hash`), the password check (bcrypt `compare`) and
token signing (`JwtService.sign`) are function parameters. The clock
(`Date.now()`, `new Date()`) is the `now` parameter, in integer milliseconds.

Behaviour of the code that the model keeps:

- `register` returns the whole saved document, including the password hash,
  and not a projection of it.
- `locked` has no default. An absent flag counts as not locked.
- The password-mismatch message is the same literal as the wrong-password
  message (`EMAIL_OR_PASSWORD_IS_INCORRECT`), but it is carried by a
  `BadRequest` instead of an `Unauthorized`.
- `createdAt` is passed to `save` but is not a schema path, so the stored
  document does not keep it.
- If `failedLoginTime` is missing when the counter is at three, the code
  would throw a JavaScript `TypeError`. The model has that outcome. A lemma
  shows that no well-formed document reaches it.

## Model

| member | source | states |
|---|---|---|
| UserSchema.NewUser | src/schemas/user.schema.ts:7-28 | a new document keeps the email, password and names it is given, has no failures, no failure time and is not locked, so it is well-formed |
| UserStore.Apply | src/modules/auth/auth.service.ts:40-73 | a partial update never touches id, email, password or names; the empty update leaves the document unchanged |
| Lockout.Decide | src/modules/auth/auth.service.ts:34-74 | login succeeds exactly when the user is not locked and the password matched |
| Lockout.Next | src/modules/auth/auth.service.ts:34-74 | the document after one login attempt keeps its id, email, password and names; the lockout lemmas below state what happens to the other fields |
| Lockout.Run | src/modules/auth/auth.service.ts:27-75 | a sequence of login attempts on one user, oldest first, keeps its id, email, password and names (by induction on the sequence); `StreakIsTailOfRun` and `LockNeedsQuickStreak` state what the sequence does to the lockout fields |
| UserSchema.IsLocked | src/modules/auth/auth.service.ts:34 | `if (user.locked)`: a user is locked only when the flag is present and true; an absent flag counts as not locked |
| UserSchema.WellFormed | src/schemas/user.schema.ts:20-24 | the shape login keeps: the counter lies in 0..3, and a failure time is recorded exactly when the counter is positive (kept by `NextPreservesWellFormed`) |
| Lockout.WindowIsFiveMinutes | src/modules/auth/auth.service.ts:62-63 | the millisecond test `now - start < 300000` agrees with `diffTime < 5` on minutes, computed on exact reals |
| Lockout.LockedIsAbsorbing | src/modules/auth/auth.service.ts:34-36 | a locked user is refused with EMAIL_HAS_BEEN_LOCKED whatever the password and time, and nothing is written |
| Lockout.SuccessResets | src/modules/auth/auth.service.ts:38-45 | a correct password on an unlocked user authenticates, sets the counter to 0, clears the failure time and changes nothing else |
| Lockout.FirstFailureStartsStreak | src/modules/auth/auth.service.ts:47-53 | the first wrong password is refused as incorrect and records one failure at `now` |
| Lockout.FailureWithinStreakCounts | src/modules/auth/auth.service.ts:55-60 | a wrong password with 1 or 2 failures recorded adds one failure and keeps the failure time |
| Lockout.QuickFailureAtThresholdLocks | src/modules/auth/auth.service.ts:62-68 | at three failures, a wrong password inside the window is refused as locked and sets only `locked` |
| Lockout.StaleFailureRestartsStreak | src/modules/auth/auth.service.ts:70-74 | at three failures, a wrong password after the window restarts the streak at one failure at `now` and does not lock |
| Lockout.NextPreservesWellFormed | src/modules/auth/auth.service.ts:38-74 | every attempt keeps the counter in 0..3 with a failure time exactly when it is positive, and never reaches the TypeError outcome |
| Lockout.LockIsSticky | src/modules/auth/auth.service.ts:34-68 | login never clears `locked`; it sets it only for a wrong password at the threshold inside the window |
| Lockout.LockedHidesPassword | src/modules/auth/auth.service.ts:34-38 | for a locked user, the decision is the same whether or not the password was right |
| Lockout.StreakIsTailOfRun | src/modules/auth/auth.service.ts:38-74 | after any run of attempts from a clean user, the document is well-formed; its counter k is at most the run's length; if it is unlocked with k > 0, the last k attempts failed and the failure time is that of the first of them |
| Lockout.LockNeedsQuickStreak | src/modules/auth/auth.service.ts:47-68 | a user who started clean is locked only if some attempt was the fourth wrong password in a row, less than five minutes after the first, and found the user unlocked with three failures |
| Lockout.ThreeQuickFailuresThenLocked | test/auth.e2e-spec.ts:133-145 | three wrong passwords are refused as incorrect; a fourth within five minutes of the first is refused as locked and locks the user |
| Lockout.SlowFourthFailureRestarts | src/modules/auth/auth.service.ts:62-74 | a fourth wrong password five minutes or more after the first is refused as incorrect and leaves one failure at its own time, unlocked |
| UserStore.FindFrom | src/modules/auth/auth.service.ts:28 | returns the first index at or after `from` whose email matches, or None when no such index exists |
| UserStore.FindByEmail | src/modules/auth/auth.service.ts:28 | finds nothing exactly when no stored document has that email; otherwise finds the first stored document with that email |
| UserStore.UpdateById | src/modules/auth/auth.service.ts:40-43 | the document with the given id receives the patch; all others are unchanged; the length is kept |
| UserStore.FindByEmailIsUnique | src/schemas/user.schema.ts:8-9 | with distinct emails, lookup by email returns the one stored document with that email |
| UserStore.UpdateByIdKeepsValid | src/modules/auth/auth.service.ts:40-73 | an update by id changes only that document and keeps the collection valid when the updated document is well-formed |
| UserStore.UserCollection.constructor | src/schemas/user.schema.ts:30 | a new collection is empty and valid |
| UserStore.UserCollection.FindOne | src/modules/auth/auth.service.ts:28 | `findOne({ email })` returns nothing exactly when no stored document has that email, and otherwise the stored document with that email that comes before every other one with it |
| UserStore.UserCollection.FindByIdAndUpdate | src/modules/auth/auth.service.ts:40-43 | the stored documents become the update by id of the old ones; the id counter is kept |
| UserStore.UserCollection.Save | src/modules/auth/auth.service.ts:89-93 | the new document gets a fresh id and the schema defaults, and it is appended |
| AuthService.Encode | src/modules/auth/auth.service.ts:96-116 | the token is signed over the response's id and email; id, email and names are the user's |
| AuthService.EncodeSeesOnlyPublicFields | src/modules/auth/auth.service.ts:96-112 | the response depends only on id, email and names, so the hash and lockout fields cannot leak and the login update does not change it |
| AuthService.InsertNewKeepsValid | src/modules/auth/auth.service.ts:82-93 | appending a well-formed document with a fresh id and an email not yet stored keeps the collection valid |
| AuthService.AuthService.constructor | src/modules/auth/auth.service.ts:22-25 | the service uses the collection it is given |
| AuthService.AuthService.Login | src/modules/auth/auth.service.ts:27-75 | unknown email: refused as incorrect, nothing written; known email: the collection receives the update `Decide` gives for that user, the password check and `now`, and the result is the encoded user or the decided error; validity is kept and TypeError never occurs |
| AuthService.LockoutScenario | test/auth.e2e-spec.ts:133-145 | the end-to-end lock story, asserted step by step on the service: register, a duplicate email refused, a mismatched confirmation refused, three wrong passwords refused as incorrect, the fourth refused as locked, and then the right password still refused as locked |
| AuthService.AuthService.Register | src/modules/auth/auth.service.ts:77-94 | a mismatched confirmation gives BadRequest(EMAIL_OR_PASSWORD_IS_INCORRECT) and an existing email gives BadRequest(EMAIL_IS_EXIST), both with the collection unchanged; otherwise exactly one clean document holding the hash is appended and returned, and validity is kept |
| FileUtil.HasExtension | src/common/util/file-util.ts:3-4 | true exactly when the name ends with a dot followed by one of the alternatives |
| FileUtil.RegexMatchesIsSuffixTest | src/common/util/file-util.ts:3-4 | a dot followed by an alternative that runs to the end of the name is the same as ending with that dotted alternative |
| FileUtil.ImageFileFilter | src/common/util/file-util.ts:12-18 | accepts exactly the names `imageRegex` matches; any other name is rejected with the image format message |
| FileUtil.PdfFileFilter | src/common/util/file-util.ts:20-26 | accepts exactly the names ending in `.pdf`; any other name is rejected with the PDF format message |
| FileUtil.OnlyLastSegmentCounts | src/common/util/file-util.ts:3-4 | since no alternative contains a dot, a name matches exactly when the text after its last dot is one of the alternatives |
| FileUtil.UpperCaseExtensionRejected | src/common/util/file-util.ts:3 | `photo.JPG` is rejected: the match is case-sensitive |
| FileUtil.InnerExtensionRejected | src/common/util/file-util.ts:3 | `photo.jpg.exe` is rejected: only the final extension counts |
| FileUtil.FinalExtensionAccepted | src/common/util/file-util.ts:3 | `photo.exe.jpg` is accepted |
| FileUtil.LastIndexOfSpec | src/common/util/file-util.ts:8 | the index found holds the character and none follows it; None means the character does not occur |
| FileUtil.LastIndexOfIs | src/common/util/file-util.ts:8 | an occurrence with no occurrence after it is the last one |
| FileUtil.StripTrailingSlashesSpec | src/common/util/file-util.ts:8 | the result is a prefix that does not end in a slash, and only slashes were removed |
| FileUtil.LastSegmentSpec | src/common/util/file-util.ts:8 | the last segment is a slash-free suffix preceded by a slash when it is not the whole path |
| FileUtil.ExtnameShape | src/common/util/file-util.ts:8 | `extname` is empty, or a dot followed by text with no dot, and it never holds a slash |
| FileUtil.NoDotNoExtname | src/common/util/file-util.ts:8 | a path with no dot has an empty extension |
| FileUtil.ExtnameOfAppended | src/common/util/file-util.ts:8 | appending a dot-led, slash-free tail with no further dot to a name that ends in neither a slash nor a dot makes that tail the extension |
| FileUtil.LastSegmentOfAppended | src/common/util/file-util.ts:8 | the last segment of such a name reaches back into the part before the tail |
| FileUtil.Extname | src/common/util/file-util.ts:8 | Node's POSIX `path.extname`: trailing slashes are ignored; the extension is taken from the last dot of the last segment to its end, and it is empty when the segment has no dot, its only dot is in first position, or the segment is `..`; its shape is stated by `ExtnameShape` |
| FileUtil.BeforeFirstDot | src/common/util/file-util.ts:7 | `split('.')[0]`, never longer than the name; `BeforeFirstDotSpec` states that it is the dot-free prefix up to the first dot |
| FileUtil.BeforeFirstDotSpec | src/common/util/file-util.ts:7 | `split('.')[0]` is a dot-free prefix of the name, followed by a dot when it is shorter than the name |
| FileUtil.DigitChar | src/common/util/file-util.ts:9 | a digit below ten becomes the decimal character that denotes it |
| FileUtil.NatToDecimal | src/common/util/file-util.ts:9 | the decimal text of a number is non-empty and made of digits only |
| FileUtil.DecimalRoundTrip | src/common/util/file-util.ts:9 | reading the decimal text of a natural number gives the number back |
| FileUtil.NumberToString | src/common/util/file-util.ts:9 | the text a number takes in a template literal: a minus sign for a negative number, then its decimal digits; `NumberToStringRoundTrip` reads it back |
| FileUtil.NumberToStringRoundTrip | src/common/util/file-util.ts:9 | the template text of the timestamp reads back as the timestamp, after a minus sign when it is negative |
| FileUtil.EditFileName | src/common/util/file-util.ts:6-10 | the stored name: the text before the first dot, a dash, the upload time, and the original extension; `EditFileNameParts` and `EditFileNameKeepsExtension` state its properties |
| FileUtil.EditFileNameParts | src/common/util/file-util.ts:6-10 | the stored name splits back into the text before the first dot, a dash, the time's text and the original extension |
| FileUtil.SplitAround | src/common/util/file-util.ts:9 | slicing a three-part concatenation gives back its parts |
| FileUtil.StampedStem | src/common/util/file-util.ts:7-9 | the stem, a dash and the time contain no dot and end in a digit |
| FileUtil.EditFileNameKeepsExtension | src/common/util/file-util.ts:6-10 | `extname` of the stored name is the `extname` of the original name |
| FileUtil.RenamedImageStillAccepted | src/common/util/file-util.ts:6-18 | a file whose extension is an accepted image extension is stored under a name the image filter still accepts |
| FileUtil.ToResponseFileAsWritten | src/common/util/file-util.ts:42-50 | as written, the response has exactly the keys `filename` and `minetype`, with the stored name under `filename` and the MIME type under `minetype` |
| FileUtil.AsWrittenLosesMimetype | src/common/util/file-util.ts:45-48 | as written, the response has no `mimetype` property and is not a partial file |
| FileUtil.ToResponseFile | src/common/util/file-util.ts:42-50 | with the key spelled `mimetype`, the response is a partial file with exactly the keys `filename` and `mimetype` |
| FileUtil.ProjectFiles | src/common/util/file-util.ts:31-39 | the `forEach`/`push` loop: one object per file, in the files' order, each built from its file |
| FileUtil.ToResponseFilesAsWritten | src/common/util/file-util.ts:28-40 | as written, one object per file, in order, each the as-written single-file object: the MIME type sits under `minetype` and no object has a `mimetype` property |
| FileUtil.ToResponseFiles | src/common/util/file-util.ts:28-40 | with the key spelled `mimetype`, one response per file, in order, each the corrected single-file response and so a partial file |

## Left out

- Password hashing and comparison (bcryptjs) and token signing (JwtService) are external. They are function parameters, so the model says nothing about the hash or the token format.
- `AuthService.decode` (auth.service.ts:118-125) is not modelled. It only strips `Bearer ` and hands the token to the JWT library.
- `generateToken`'s expiry (`JWT_EXPIRES_IN` from the environment) is not modelled, because it depends on the environment and the JWT library.
- `generateFromDate`, `generateToDate` and `hashPassword`'s salt rounds (src/common/util/function-util.ts) are not modelled. They are date formatting and library calls.
- AuthService.AuthService.Login: `findOne` and `findByIdAndUpdate` are modelled as one atomic step. Two concurrent logins for the same user can interleave in the real service; the model does not capture that race.
- AuthService.AuthService.Register: the duplicate-email check and the insert are modelled as one atomic step. In the real service the unique index is the final guard against a concurrent duplicate.
- Lockout.WindowIsFiveMinutes: `diffTime` is a floating-point quotient in the source. The model compares integer milliseconds and relates them to exact reals, not to IEEE-754 doubles.
- The message of the JavaScript `TypeError` is not modelled, only that it is raised.
- Mongo ObjectIds are modelled as natural numbers from a counter.
- Other Mongoose behaviour is not modelled: validation errors, schema options and `createdAt`, which the strict schema drops.
- The HTTP layer is not modelled: controllers, guards, the JWT strategy and the response interceptor.
- src/modules/auth/dto/register.dto.ts is not part of this model. `RegisterDto` holds the fields `register` reads, and class-validator rules are not modelled.
- FileUtil.Extname follows Node's POSIX rules. The Windows variant of `path.extname` is not modelled.
- The `req` argument and the callback of the multer helpers are not modelled. Filters return a verdict and `editFileName` returns the name.
- FileUtil.MulterFile keeps only `originalname`, `filename` and `mimetype`, the fields these helpers read.
- FileUtil.EditFileName: `Date.now()` is the integer parameter `now`. The model does not bound it to the range a double holds exactly.

## Findings

| source | as written | input that shows it | evidently intended | confidence | as-written member | corrected member |
|---|---|---|---|---|---|---|
| src/common/util/file-util.ts:35 and :47 | the response object stores the MIME type under the key `minetype` | any uploaded file, e.g. one with `mimetype` `image/png`: the response has `minetype: "image/png"` and no `mimetype` | the key `mimetype`, so that the value is a `Partial<Express.Multer.File>` as the return type declares | high, not executed | FileUtil.AsWrittenLosesMimetype | FileUtil.ToResponseFile |
