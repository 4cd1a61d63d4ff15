# Account service, auth middleware and upload helpers, in Dafny

This project models the core of a small Express/Sequelize authentication backend:

- **The account service** (`registerService`, `loginService`) works over the `auths` table.
  Register refuses an email that is already stored. Otherwise it hashes the password, signs an
  access token (`1d`) and a refresh token (`7d`) over `{email}`, and inserts a row whose refresh
  token expires seven days later. Login looks the email up, checks the password with bcrypt,
  signs both tokens over `{id, email}`, and overwrites the row's refresh token, its expiry and
  `updatedAt`. Both operations turn any thrown error into an internal-error envelope.
- **The `auths` table**: the Account record, its column defaults, and the auto-increment id.
  `findOne` and `create` are modelled on it.
- **The helpers of `src/utils`**:
  - the `{ message, success, statusCode, data }` envelope;
  - `verifyToken`;
  - the password-strength regular expression;
  - Nigerian phone-number verification and sanitising to `+234` followed by ten digits;
  - zero-padded verification codes.
- **The `verify` middleware**: Authorization header, token after the first space, jwt.verify,
  then 404 / 401 / 500 or `next()` with `req.user`.
- **The upload helpers**:
  - multer's file filter (Authorization header plus an allow-list of eleven MIME types);
  - the upload error handler;
  - the options `uploadToCloudinary` derives from a file: folder, resource type, public id and
    transformations.

Layout, one module per source file:

| file | module | source |
|---|---|---|
| `wrappers.dfy` | `Wrappers` | the `Option` type used throughout |
| `utils.dfy` | `Utils` | `src/utils/index.ts` |
| `auth_schema.dfy` | `AuthSchema` | `src/schemas/users/authSchema.ts`, with `findOne`/`create` |
| `auth_service.dfy` | `AuthService` | `src/services/users/authService.ts` |
| `auth_middleware.dfy` | `AuthMiddleware` | `src/middlewares/auth.ts` |
| `cloudinary.dfy` | `Storage` | `src/modules/storage/cloudinary.ts` |

How the state-changing code is modelled:

- The service state is the class `AccountStore`, whose fields are the rows and the id counter.
  Its methods `Register` and `Login` follow the source's steps in order.
  - Each is proved equal to a function of the table before the call (`RegisterSpec`,
    `LoginSpec`), which gives the response and the table after the call.
  - The properties of the service are lemmas about those two functions.
- The middleware has two forms:
  - `Decide` is its decision as a function;
  - `Verify` acts on request and response objects and is proved to carry that decision out.
- bcrypt and jsonwebtoken are functions held in a `Crypto` value (hash under a salt, compare,
  and sign at an issue time in whole seconds) and in a `jwtVerify` parameter.
- The clock, bcrypt's salt and the random draws are parameters.
- The step at which an awaited call throws is the parameter `fault`.

Where the code and the project's own design description differ, the model follows the code:

- The service does not lower-case or trim emails. The model compares them as exact strings; how the
  database compares them is listed under "## Left out".
- Accounts have no `isActive` column.
- The email column has no unique constraint. Only Register's check keeps emails unique
  (`AuthSchema.CreateDuplicateEmail`).
- Login returns the whole updated row as `user`, including the password hash. It does not
  return a summary.
- On a thrown error, Login returns the error itself as `data`, not a generic payload.
- Register signs its tokens over `{email}` alone. Login signs over `{id, email}`.
- There is no refresh, logout or one-time-password reset.

## Model

| member | source | states |
|---|---|---|
| `Utils.MessageHandler` | src/utils/index.ts:6-8 | the envelope's four fields are the four arguments, unchanged |
| `Utils.VerifyToken` | src/utils/index.ts:32-42 | success exactly when jwt.verify returns; then `decoded` is its payload and there is no error. Otherwise: no payload; the error is the thrown Error's message, or "Invalid or expired token" for a non-Error; it is non-empty whenever the library's message is |
| `Utils.PasswordValidator` | src/utils/index.ts:47-52 | definition: the regular expression read part by part, as four look-aheads and then at least eight allowed characters up to the end; its meaning is proved in `Utils.PasswordValidatorMeaning` |
| `Utils.LookaheadOverPasswordChars` | src/utils/index.ts:49 | over allowed characters, a look-ahead `(?=.*[class])` succeeds exactly when the string holds a member of the class |
| `Utils.PasswordValidatorMeaning` | src/utils/index.ts:47-52 | the regular expression accepts a password exactly when it has at least 8 characters, all from `[A-Za-z0-9@#$%^&*!]`, including a lower-case letter, an upper-case letter, a digit and one of `@#$%^&*!` |
| `Utils.VerifyPhoneNumber` | src/utils/index.ts:55-57 | definition: the regular expression with one disjunct per choice of the optional prefix; its meaning is proved in `Utils.VerifyPhoneNumberMeaning` |
| `Utils.NationalPart` | src/utils/index.ts:55-57 | the last ten characters, and the number is whatever precedes them followed by them |
| `Utils.VerifyPhoneNumberMeaning` | src/utils/index.ts:55-57 | a number is valid exactly when it is a ten-digit national number `[789][01]` + 8 digits behind one of the prefixes "", "0", "234", "+234" |
| `Utils.StripNationalPrefix` | src/utils/index.ts:68-79 | definition: the three conditional strips in source order ("0", then "+", then "234"); on valid input `Utils.StripNationalPrefixValid` proves they leave the national part |
| `Utils.StripNationalPrefixValid` | src/utils/index.ts:68-79 | on a valid number, stripping a leading "0", then "+", then "234" leaves exactly the national part |
| `Utils.SanitizePhoneNumber` | src/utils/index.ts:59-87 | an invalid number gives status false, "Phone number is invalid" and ""; a valid one gives status true, "Phone number is valid" and "+234" followed by its national part, 14 characters |
| `Utils.SanitizedPhoneVerifies` | src/utils/index.ts:59-87 | a sanitised number passes verifyPhoneNumber again |
| `Utils.SanitizeIdempotent` | src/utils/index.ts:59-87 | sanitising a result again returns the same result, for valid and invalid input |
| `Utils.SanitizeIdentifiesNumbers` | src/utils/index.ts:59-87 | two valid numbers sanitise to the same string exactly when their national parts agree |
| `Utils.NatToString` | src/utils/index.ts:91-92 | `toString()` of a non-negative integer: at least one digit, all digits, no leading zero |
| `Utils.NatToStringValue` | src/utils/index.ts:91-92 | reading back the decimal string gives the number |
| `Utils.NatToStringInjective` | src/utils/index.ts:91-92 | two numbers have the same decimal string exactly when they are equal |
| `Utils.NatToStringLength` | src/utils/index.ts:91-92 | a number below 10^k has at most k digits |
| `Utils.PadStart` | src/utils/index.ts:93 | `padStart`: the result is at least `length` long, ends with the input, and is filled with the pad character before it |
| `Utils.GenerateVerificationCode` | src/utils/index.ts:90-94 | for a draw below 10^length, the code has `length` characters, all decimal digits, and denotes the draw; the default length is 6 |
| `Utils.VerificationCodeUnique` | src/utils/index.ts:90-94 | the code is the only digit string of its length that denotes the draw |
| `AuthSchema.WithDefaults` | src/schemas/users/authSchema.ts:30-64 | a created row keeps the given email and password; the refresh token defaults to '', its expiry to null, both timestamps to now |
| `AuthSchema.DefaultRow` | src/schemas/users/authSchema.ts:44-63 | a row created from an email and a password alone has an empty refresh token, no expiry, and both timestamps at creation time |
| `AuthSchema.FindOne` | src/services/users/authService.ts:10 | `findOne({ where: { email } })`: the first row whose email is exactly the given one, or none when no row has it |
| `AuthSchema.FindOneAppended` | src/services/users/authService.ts:10-26 | after appending a row with a new email, findOne finds that row |
| `AuthSchema.FindOneUnique` | src/services/users/authService.ts:42 | in a table without duplicate emails, findOne finds the one row with the email wherever it is |
| `AuthSchema.Create` | src/schemas/users/authSchema.ts:31-35 | `create` appends the row under the next auto-increment id; that id differs from every stored id, and ids stay positive, increasing and below the counter |
| `AuthSchema.CreateDuplicateEmail` | src/schemas/users/authSchema.ts:36-39 | the column is not unique: creating a row with a stored email leaves two rows with that email |
| `AuthService.IssuedAt` | src/utils/index.ts:27 | definition: the `iat` jwt.sign stamps on a token, the clock's whole seconds, `Math.floor(Date.now() / 1000)` |
| `AuthService.RegisterSpec` | src/services/users/authService.ts:6-36 | definition: the response and the table after registerService, step by step with the throwing step as input; its properties are proved in the `AuthService.Register*` lemmas below |
| `AuthService.RegisterExistingEmail` | src/services/users/authService.ts:10-13 | a stored email is refused with Conflict, "Email already registered", success false, `{}`; the table is unchanged |
| `AuthService.RegisterNewEmail` | src/services/users/authService.ts:15-32 | a new email adds exactly one row at the end, with a fresh id, the given email, the salted hash of the password, the returned refresh token, expiry now + 604800000 ms and timestamps now. The response is a success carrying the two tokens signed over `{email}` with `1d` and `7d` at the current second, and `user` holds only `{id, email}` |
| `AuthService.RegisterStoresNoPlaintext` | src/services/users/authService.ts:19-22 | when a hash never equals its input, the stored password is never the plaintext |
| `AuthService.RegisterFault` | src/services/users/authService.ts:33-35 | a throw at findOne, signing, hashing or create gives Internal Server Error, success false, `{}`, and leaves the table unchanged |
| `AuthService.RegisterKeepsInvariants` | src/services/users/authService.ts:6-36 | Register keeps ids valid and emails unique |
| `AuthService.RegisterTwice` | src/services/users/authService.ts:10-13 | registering one email a second time is refused with Conflict and adds no row |
| `AuthService.WithSession` | src/services/users/authService.ts:56 | definition: the row after `user.update`, with the new refresh token, its expiry and `updatedAt`; `AuthService.LoginSuccess` proves nothing else in the row changes |
| `AuthService.LoginSpec` | src/services/users/authService.ts:38-66 | definition: the response and the table after loginService, step by step with the throwing step as input; its properties are proved in the `AuthService.Login*` lemmas below |
| `AuthService.LoginRefusal` | src/services/users/authService.ts:42-50 | an unknown email or a wrong password gives Unauthorized, "Invalid credentials", success false, `{}`, with the table unchanged |
| `AuthService.LoginRefusalsIndistinguishable` | src/services/users/authService.ts:42-50 | the responses to an unknown email and to a wrong password are identical |
| `AuthService.LoginSuccess` | src/services/users/authService.ts:52-62 | a successful login returns tokens signed over `{id, email}` with `1d` and `7d` at the current second. Only the matching row changes: its refresh token becomes the returned one, its expiry becomes now + 7 days and `updatedAt` becomes now. Id, email, password, creation time, the other rows and the counter are kept. `user` is the updated row |
| `AuthService.LoginFault` | src/services/users/authService.ts:63-65 | a throw at findOne, compare, signing or update gives Internal Server Error, success false, the thrown error as data, and leaves the table unchanged |
| `AuthService.LoginKeepsInvariants` | src/services/users/authService.ts:38-66 | Login keeps ids valid and emails unique |
| `AuthService.RegisterThenLogin` | src/services/users/authService.ts:6-66 | when compare accepts a password against its own hash, register then login succeeds for the new row; the login tokens are signed over its id and email, and the stored refresh token is the returned one |
| `AuthService.LoginTwiceKeepsLatestToken` | src/services/users/authService.ts:52-56 | after two logins the stored refresh token is the one signed at the second login's time, and the expiry is the second one's; the other rows are untouched. When signing in different seconds gives different tokens and the two logins fall in different seconds, the stored token is no longer the first login's: it was overwritten |
| `AuthService.FindOneSameEmails` | src/services/users/authService.ts:42 | findOne depends only on the rows' emails, so a login finds the same row again |
| `AuthService.AccountStore.constructor` | src/schemas/users/authSchema.ts:31-35 | an empty table whose id sequence starts at 1 |
| `AuthService.AccountStore.Register` | src/services/users/authService.ts:6-36 | the response and the new table are those of `RegisterSpec` on the old table; the table stays valid and emails stay unique |
| `AuthService.AccountStore.Login` | src/services/users/authService.ts:38-66 | the response and the new table are those of `LoginSpec` on the old table; the table stays valid and emails stay unique |
| `AuthMiddleware.Split` | src/middlewares/auth.ts:11 | `split(' ')`: at least one piece, none containing the separator |
| `AuthMiddleware.SplitJoin` | src/middlewares/auth.ts:11 | joining the pieces with the separator gives the header back |
| `AuthMiddleware.SplitUnique` | src/middlewares/auth.ts:11 | separator-free pieces joined by the separator split back into exactly those pieces |
| `AuthMiddleware.TokenOf` | src/middlewares/auth.ts:11 | definition: `split(' ')[1]`, or none when there is no second piece; its meaning is proved in `AuthMiddleware.TokenAfterScheme` and `AuthMiddleware.TokenOfNoSpace` |
| `AuthMiddleware.TokenAfterScheme` | src/middlewares/auth.ts:11 | the token is the text after the first space, up to the next space or the end |
| `AuthMiddleware.TokenOfNoSpace` | src/middlewares/auth.ts:11-14 | a header has no second piece exactly when it holds no space |
| `AuthMiddleware.Decide` | src/middlewares/auth.ts:4-27 | definition: the middleware's outcome from the header and jwt.verify's verdict; its cases are proved in the `AuthMiddleware.Decide*` lemmas below, and `AuthMiddleware.Verify` is proved to carry it out |
| `AuthMiddleware.DecideWithoutHeader` | src/middlewares/auth.ts:6-9 | a missing or empty header gives 404 `{ success: false, message: 'Authorization header not found!' }` |
| `AuthMiddleware.DecideWithoutToken` | src/middlewares/auth.ts:11-14 | "Bearer" and "Bearer " give 404 `{ success: false, message: 'Token not found!' }` |
| `AuthMiddleware.DecideWithToken` | src/middlewares/auth.ts:16-22 | for `<scheme> <token>`, jwt.verify gets exactly `token`. A valid token leads to `next` with the decoded payload, an invalid one to 401 `{ auth: false, message: 'Unauthorized' }`, and a throw to 500 "Server Error" |
| `AuthMiddleware.DecideIgnoresScheme` | src/middlewares/auth.ts:11 | the word before the first space never changes the outcome |
| `AuthMiddleware.DecideNextOnlyWhenValid` | src/middlewares/auth.ts:16-22 | `next` is reached only with a non-empty token that jwt.verify accepts, and `req.user` is what it decoded |
| `AuthMiddleware.HttpResponse.Json` | src/middlewares/auth.ts:8 | `res.status(s).json(b)` records exactly one more reply |
| `AuthMiddleware.Verify` | src/middlewares/auth.ts:4-27 | exactly one reply and no `next`, or `next` once with `req.user` set and no reply, as `Decide` says |
| `Storage.FileFilter` | src/modules/storage/cloudinary.ts:20-43 | definition: header check, then the two allow-lists; its meaning is proved in `Storage.FileFilterNeedsHeader` and `Storage.FileFilterAllowList` |
| `Storage.FileFilterNeedsHeader` | src/modules/storage/cloudinary.ts:20-24 | without an Authorization header every file is rejected with 'No authorization header', whatever its type |
| `Storage.FileFilterAllowList` | src/modules/storage/cloudinary.ts:26-42 | with the header, a file is accepted exactly when its type is one of the 4 image and 7 document types; any other type is rejected with 'Invalid file type' |
| `Storage.HandleUploadErrors` | src/modules/storage/cloudinary.ts:47-67 | no error means `next()`. Any error gives 400 with success false and statusCode 400; the message is "Upload error: " + message for a multer error and the error's own message otherwise |
| `Storage.LastIndexOf` | src/modules/storage/cloudinary.ts:74 | the position of the last occurrence of a character, or none when it does not occur |
| `Storage.Extname` | src/modules/storage/cloudinary.ts:74 | `path.extname` on one path component: empty exactly when the name is empty, has no '.' after its first character, or is ".."; otherwise a proper suffix of the name that starts with '.' and holds no other '.', that is, the part from the last dot |
| `Storage.ExtnameAfterLastDot` | src/modules/storage/cloudinary.ts:74 | a non-empty stem, a dot and a dot-free extension give that extension: "photo.png" gives ".png" |
| `Storage.Basename` | src/modules/storage/cloudinary.ts:75 | `path.basename(name, ext)`: the name without a non-empty suffix it ends with, otherwise the name |
| `Storage.Stem` | src/modules/storage/cloudinary.ts:74-75 | definition: `path.basename(file.fieldname, path.extname(file.originalname))`; `Storage.Basename` and `Storage.Extname` state what each step gives |
| `Storage.PublicId` | src/modules/storage/cloudinary.ts:83-85 | definition: the stem, timestamp and random id joined by '-', with the extension appended for non-images; `Storage.PublicIdIdentifiesUpload` proves it tells uploads of one file apart |
| `Storage.UploadOptionsFor` | src/modules/storage/cloudinary.ts:71-89 | resource type is 'image' exactly for `image/` types and 'raw' otherwise. Transformations are `[{ quality: 'auto:best' }, { fetch_format: 'auto' }]` for images and empty otherwise. The folder defaults to 'Vyntra', access is 'public', and the public id is `fieldname-timestamp-uniqueId`, with the extension appended for non-images |
| `Storage.DocTypesAreApplications` | src/modules/storage/cloudinary.ts:28-36 | every allowed document type starts with `application/` |
| `Storage.AcceptedFileResourceType` | src/modules/storage/cloudinary.ts:71 | for a file the filter accepts, the resource type is 'image' exactly when its type is on the image list |
| `Storage.PublicIdIdentifiesUpload` | src/modules/storage/cloudinary.ts:83-85 | for one file, two uploads get the same public id exactly when their timestamps and random ids agree |

## Left out

- Sequelize persistence, the connection and model registration (`Auth.init`) are not modelled. The table is an in-memory sequence of rows plus the id counter.
- Concurrency is not modelled. Each service call is one atomic step, so a race between the `findOne` check and `create` of two simultaneous registrations is not represented.
- bcrypt and jsonwebtoken internals are not modelled. `hashPassword`, `verifyPassword` and `generateToken` are the `hash`, `compare` and `sign` functions of a `Crypto` value; the salt of `genSalt(10)` is a parameter.
- The process-wide signing secret is not modelled. It is inside `sign` and `jwtVerify`.
- The Cloudinary upload call, its configuration, the base64 encoding of the buffer, the returned `secure_url` and the rethrown "Failed to upload to Cloudinary" error are not modelled. They are foreign I/O. Only the options derived from the file are.
- multer's 10 MB size limit and memory storage are not modelled. multer enforces them itself, and its error reaches the handler as a `MulterError`.
- The clock (`Date.now()`, `new Date()`) and `Math.random()` are parameters.
- The email delivery modules, Express wiring, routes, controllers and request validation are not modelled. They are glue outside this core.
- The JSON serialisation of responses is not modelled. Login's error reply carries the thrown value as `data`, and what that shows depends on the thrower. Sequelize errors from `findOne` or `update` serialise with their enumerable `name`, `parent`, `original` and `sql`, so the reply can carry the SQL text and the driver's error. A plain `Error` serialises to `{}`. That covers what jwt.sign throws (for example "secretOrPrivateKey must have a value" when the secret is unset) and bcryptjs's "Illegal arguments". The Sequelize instance returned as Login's `user` serialises to its columns.
- `AuthSchema.FindOne`: emails are compared as exact strings. The database's collation is not modelled. The service runs on MySQL, whose default collations compare strings without regard to case, so there "alice@x.io" and "Alice@x.io" are the same email: Register answers Conflict where `AuthService.RegisterNewEmail` adds a second row, and Login signs over the stored email where `AuthService.LoginSuccess` states the requested one.
- `AuthSchema.WithDefaults`: Sequelize's default `timestamps: true` is not modelled separately. Under it every save sets `updatedAt` from Sequelize's own clock, whatever value was passed, and fills `createdAt` when absent. With one `now` for every clock reading, the stored values are the same.
- `AuthMiddleware.Decide`: the decoded payload is a `TokenPayload` holding the claims, `iat` and `exp`. Other fields that a token signed elsewhere may carry are not modelled.
- `AuthService.RegisterSpec`: the three clock readings of Register (the expiry and the two timestamps) are one `now`.
- `Utils.VerifyToken`: the error string is proved non-empty only when the library's Error message is non-empty. jsonwebtoken's messages are not part of this model.
- `Utils.GenerateVerificationCode`: the model is stated on an integer draw below 10^length. It does not model the floating-point `Math.pow` and `toString` that break for lengths above about 15. With length 0 the code is "0", one character.
- `Storage.Extname`: `path.extname` and `path.basename` are modelled on a single path component. Names holding '/' are not covered.
- `Storage.HandleUploadErrors`: a truthy `err` that is not an Error (so `err.message` is undefined) is not modelled. Every error carries a message string.
- `AuthMiddleware.Decide`: jwt.verify is called with a callback, so every token failure, including an unset secret, reaches the callback and gives 401; jwt.verify itself does not throw. The 500 reply is reached only when the callback's own `res.status(...).json(...)` or `next()` throws synchronously. `Verdict.Raised` stands for that case, and the reason for the throw is not modelled.
- `AuthMiddleware.Verify`: when `next()` is the call that throws, the program has already set `req.user` and called `next` before it replies 500. The model treats every `Raised` as a 500 reply without `next`, so it does not capture that ordering.
