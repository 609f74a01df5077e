# RetailX authentication service: registration, session gate and default address

This project is a Dafny model of the core of the RetailX `auth` service, an Express and Mongoose application. The model covers five pieces:

- **The default-address rule.** This is the user schema's pre-save hook. After it runs, a non-empty address list has exactly one default entry. If no entry was marked default, the first one becomes default. If several were marked, only the last marked one stays default. The hook is modelled twice: as the in-place method `Addresses.NormalizeAddresses` on an `array<Entry>`, and as the pure function `Addresses.Normalize`, which specifies the method. An `Entry` is an address or a missing one. Mongoose's cast of the request array keeps a `null` element as a missing entry; any other element that is not an object (`false`, `0`, `""` included) is a cast error, so the save fails with 500. The hook's scan skips a missing entry, but writing `isDefault` to one throws, the save fails and the reply is 500. The model also includes Mongoose's casting of a request object into an address (`isDefault` defaults to `false`).
- **The registration rules.** These are the express-validator chains of the register route. They are modelled as predicates on a parsed JSON body, together with the library behaviour they rely on:
  - the coercion of values to strings;
  - JavaScript `trim`;
  - `isLength`, which does not count variation selectors;
  - the trim sanitisers, which rewrite the body.
- **The `register` controller.** It runs the pre-check on email or username, hashes the password, builds and saves the user, maps store errors to 409 or 500, and returns a 201 view that never contains the password. `Accounts.RegisterOutcome` states the controller as a function. `Accounts.UserStore` is the users collection as a class, and its `Register` method is proved against `RegisterOutcome`.
- **The `authenticate` middleware.** A missing, empty or unverifiable `token` cookie gets a 401 reply. Otherwise the decoded payload is attached to the request and the next handler runs exactly once. `Gate.Exchange` holds the request and response state, and `Gate.Authenticate` changes it.
- **The session cookie helpers** (`setAuthCookie` and `clearAuthCookie`), including how `NODE_ENV` decides the `secure` flag.

The files are:

- `wrappers.dfy`: `Option`.
- `json.dfy`: JSON values and JavaScript's integer-to-string conversion.
- `addresses.dfy`: the address schema and the hook.
- `validation.dfy`: the register rules.
- `accounts.dfy`: the user schema and `register`.
- `gate.dfy`: the middleware and `verifyToken`'s guard.
- `cookies.dfy`: the cookie helpers.

The following are parameters of the model:

- **The password hash** (`hash: string -> string`). bcrypt with a random salt is a pure function here.
- **The JWT signature check** (`verify: string -> Option<D>`). Its secret and the clock are folded into the function, and `None` means it threw.
- **The email validation and normalisation of the validator library** (`isEmail` and `normalizeEmail`).
- **The store's behaviour on one request** (`StoreFaults`): whether the pre-check query or the save raises an error, and with which code.
- **The id a saved document receives.** It is `nextId`, which increases by one on each successful save.

## Model

| member | source | states |
|---|---|---|
| Json.Digits | auth/src/validations/auth.validation.js:5-12 | The digits of a natural number have no leading zero and denote that number. |
| Json.IntToString | auth/src/validations/auth.validation.js:5-12 | The spelling of a number is digits with no leading zero, after a minus sign exactly when the number is negative, and it denotes that number. |
| Addresses.CastString | auth/src/models/User.model.js:3-8 | An absent or null field stays missing and a string is kept. A number is spelled as JavaScript spells it, a boolean as "true" or "false", and an array or object is a cast error. |
| Addresses.CastIsDefault | auth/src/models/User.model.js:9-12 | An absent `isDefault` is `false`. The result is `true` exactly when the value is one of Mongoose's true spellings (`true`, `"true"`, `1`, `"1"`, `"yes"`). It is a cast error exactly when the value is neither null nor a true or false spelling. |
| Addresses.CastAddress | auth/src/models/User.model.js:3-13 | Only an object can be cast into an address, and an object fails exactly when one of its five text fields or its `isDefault` fails to cast. |
| Addresses.CastStoresSent | auth/src/models/User.model.js:3-13 | An object whose text fields are absent, null or strings and whose `isDefault` is absent, null or a Boolean spelling casts. Each string field is stored as sent, an absent or null field is stored missing, and the address is default exactly when a true spelling was sent. |
| Addresses.CastElement | auth/src/models/User.model.js:48 | An element becomes a missing entry exactly when it is `null`. Any other element that is not an object is a cast error. Any address it becomes is the cast of an object, and an object whose cast fails is a cast error. |
| Addresses.CastWithoutIsDefault | auth/src/models/User.model.js:3-13 | An address sent with only street and city is stored with those strings, the other fields missing and `isDefault` false. |
| Addresses.CastDefaultOnlyWhenSent | auth/src/models/User.model.js:9-12 | A cast address is default if and only if `isDefault` was sent with a true spelling. |
| Addresses.Defaults | auth/src/models/User.model.js:59-65 | The collected indices are strictly increasing and in range. Each one marks a default entry, and every default entry is collected; missing entries are skipped. |
| Addresses.KeepOnly | auth/src/models/User.model.js:72-75 | The list keeps its length and every field but `isDefault`. When the kept index is in range it is the one and only default; otherwise no entry is default. |
| Addresses.Normalize | auth/src/models/User.model.js:56-77 | When the hook succeeds, the list keeps its length. |
| Addresses.LastDefaultIsLargest | auth/src/models/User.model.js:70-72 | The last collected index is a default entry, and no later entry is default. |
| Addresses.NoneCollectedIffNoDefault | auth/src/models/User.model.js:59-67 | Nothing is collected if and only if no entry is default. |
| Addresses.ManyCollectedIffSeveral | auth/src/models/User.model.js:59-70 | Two or more indices are collected if and only if two entries are default. |
| Addresses.NormalizeFails | auth/src/models/User.model.js:67-75 | The hook throws if and only if it must write to a missing entry: nothing is default and the first entry is missing, or two entries are default and some entry is missing. |
| Addresses.NormalizeKeepsDetails | auth/src/models/User.model.js:56-77 | When the hook succeeds it keeps the length, keeps missing entries missing and changes no field other than `isDefault`. |
| Addresses.NormalizeNoDefault | auth/src/models/User.model.js:67-69 | In a non-empty list with no default whose first entry is an address, entry 0 becomes default and every other entry is unchanged. |
| Addresses.NormalizeManyDefaults | auth/src/models/User.model.js:70-76 | With two or more defaults and no missing entry, the hook succeeds, and an entry is default afterwards if and only if it was default and no later entry was. |
| Addresses.NormalizeKeepsSingleDefault | auth/src/models/User.model.js:56-77 | A list with exactly one default is left unchanged, missing entries included. |
| Addresses.NormalizeEmpty | auth/src/models/User.model.js:67-77 | An empty list is left unchanged. |
| Addresses.NormalizeEstablishesOneDefault | auth/src/models/User.model.js:55-77 | When the hook succeeds, an empty list stays empty and a non-empty list has exactly one default. |
| Addresses.NormalizeIdempotent | auth/src/models/User.model.js:56-77 | Running the hook a second time on its result succeeds and changes nothing. |
| Addresses.FirstMissing | auth/src/models/User.model.js:73-74 | The index of the first missing entry: it is missing and every entry before it is present. |
| Addresses.KeptUpTo | auth/src/models/User.model.js:73-75 | The second loop stopped at an index: the entries from there on are as they were. |
| Addresses.CollectDefaults | auth/src/models/User.model.js:60-65 | The first loop's `defaultIndices` are `Defaults` of the array. |
| Addresses.KeepOnlyInPlace | auth/src/models/User.model.js:72-75 | The second loop finishes if and only if no entry is missing, and then leaves `KeepOnly` of the old array. Otherwise it stops at the first missing entry, with the entries before it rewritten and the rest untouched. |
| Addresses.NormalizeAddresses | auth/src/models/User.model.js:56-77 | The in-place hook succeeds exactly when `Normalize` does, and then leaves the array equal to `Normalize` of its old contents. When it throws, the array holds what the loops wrote before the throw. |
| Validation.Trim | auth/src/validations/auth.validation.js:6 | The result is a slice of the input with only white space cut from either end, and it neither starts nor ends with JavaScript white space. |
| Validation.TrimOfTrimmed | auth/src/validations/auth.validation.js:6 | A string without white space at either end is its own trim. |
| Validation.TrimIdempotent | auth/src/validations/auth.validation.js:6 | Trimming twice gives the same result as trimming once. |
| Validation.TrimIgnoresLeadingSpace | auth/src/validations/auth.validation.js:6 | Leading white space does not change the trimmed string. |
| Validation.TrimEmptyIffBlank | auth/src/validations/auth.validation.js:38-43 | A string trims to "" if and only if every character is white space. |
| Validation.Stringify | auth/src/validations/auth.validation.js:5-17 | Absent and null values read as "" and a string reads as itself. A number reads as its JavaScript spelling, a boolean as "true" or "false", and an object as "[object Object]". Only an array has no reading. |
| Validation.MeasuredLength | auth/src/validations/auth.validation.js:9 | The length `isLength` measures is never more than the number of characters. |
| Validation.NoSelectorsMeasured | auth/src/validations/auth.validation.js:9 | Without U+FE0E or U+FE0F, `isLength` counts every character. |
| Validation.WordCharsMeasured | auth/src/validations/auth.validation.js:9-11 | A string of word characters is measured at its full length. |
| Validation.ValidUsername | auth/src/validations/auth.validation.js:5-12 | A missing or null username, or an array in its place, is refused. |
| Validation.SanitizedUsername | auth/src/validations/auth.validation.js:5-12 | The username the controller receives is the trim of the sent value's reading, and it has 3 to 30 characters, each a letter, digit or underscore. |
| Validation.UsernameCharacterisation | auth/src/validations/auth.validation.js:5-12 | A padded string passes if and only if its trim is 3 to 30 word characters. |
| Validation.UsernameRejectsDot | auth/src/validations/auth.validation.js:11-12 | "john.doe" is refused. |
| Validation.WordUsername | auth/src/validations/auth.validation.js:5-12 | A string of 3 to 30 word characters is its own trim and is accepted. |
| Validation.UsernameAcceptsPlain | auth/src/validations/auth.validation.js:5-12 | "johndoe" is accepted. |
| Validation.UsernameRequired | auth/src/validations/auth.validation.js:7-8 | A missing username is refused. |
| Validation.NumberUsername | auth/src/validations/auth.validation.js:5-12 | A non-negative number spelled with 3 to 30 digits is accepted. |
| Validation.UsernameNumberCoerced | auth/src/validations/auth.validation.js:5-12 | The number 12345 reads as "12345" and is accepted. |
| Validation.ValidPassword | auth/src/validations/auth.validation.js:19-31 | An accepted password was sent as a string. |
| Validation.PasswordExamples | auth/src/validations/auth.validation.js:19-31 | "password" is refused because it has no uppercase letter. A number is refused because the password must be a string. |
| Validation.PasswordFromWitnesses | auth/src/validations/auth.validation.js:19-31 | A string of at least 8 measured characters that contains a lowercase letter, an uppercase letter, a digit and a special character is accepted. |
| Validation.PasswordAcceptsStrong | auth/src/validations/auth.validation.js:19-31 | "StrongP@ssw0rd" is accepted. |
| Validation.StrongPasswordLength | auth/src/validations/auth.validation.js:22 | "StrongP@ssw0rd" measures 14. |
| Validation.PasswordLengthBound | auth/src/validations/auth.validation.js:22-23 | Every accepted password is a string of at least 8 characters. |
| Validation.ValidFullName | auth/src/validations/auth.validation.js:33-45 | An accepted full name is an object holding both `firstName` and `lastName`. |
| Validation.FullNameRejectsBlank | auth/src/validations/auth.validation.js:38-40 | A first name that is only white space is refused. |
| Validation.FullNameRejectsMissing | auth/src/validations/auth.validation.js:33-40 | A missing first name is refused, and so is an array in place of the object. |
| Validation.FullNameAcceptsPadded | auth/src/validations/auth.validation.js:33-45 | A first name with white space before it and a last name with white space after it are accepted when each has a character that is not white space. |
| Validation.FullNameFromParts | auth/src/validations/auth.validation.js:33-45 | An object with two non-blank name strings is accepted. |
| Validation.NonBlankWitness | auth/src/validations/auth.validation.js:38-43 | A string with a character that is not white space passes the name check. |
| Validation.ValidRole | auth/src/validations/auth.validation.js:47-50 | An accepted role is absent or a string. |
| Validation.RoleCharacterisation | auth/src/validations/auth.validation.js:47-50 | The role passes if and only if it is absent or exactly the string "user" or "seller". |
| Validation.RoleRejectsAdmin | auth/src/validations/auth.validation.js:47-50 | "admin" and null are refused. |
| Validation.ValidAddresses | auth/src/validations/auth.validation.js:52-55 | Accepted addresses are absent or an array. |
| Validation.AddressesMustBeArray | auth/src/validations/auth.validation.js:52-55 | An object or null in place of the array is refused. An absent list and an empty array pass. |
| Validation.AddressFieldMustBeString | auth/src/validations/auth.validation.js:56-80 | A number in an address field is refused. |
| Validation.SanitizeField | auth/src/validations/auth.validation.js:56-60 | A string field becomes its trim. Any other value of the field, and every other field, is unchanged, and no key is added or removed. |
| Validation.SanitizeAddress | auth/src/validations/auth.validation.js:56-80 | Each of the five fields that holds a string becomes its trim. Every other key and value is unchanged, and anything that is not an object is left untouched. |
| Validation.RegisterBodyValid | auth/src/validations/auth.validation.js:4-81 | An accepted body has a username, a password and a fullName. |
| Validation.UnknownKeysIgnored | auth/src/validations/auth.validation.js:4-81 | A key that no rule names cannot change the verdict. |
| Accounts.FailureReply | auth/src/controllers/auth.controller.js:38-46 | An error gives 409 "User already exists" exactly when its code is 11000, and 500 "Internal server error" otherwise. |
| Accounts.CastAll | auth/src/models/User.model.js:48 | The list casts if and only if every sanitised element casts. The result then has the same length and holds each element's cast. |
| Accounts.RegistrationOf | auth/src/validations/auth.validation.js:4-81 | A body is refused by validation if and only if it breaks a rule. Otherwise the username is the trim of the sent value, the email is the library's normalisation of it, the password and names are the strings sent, and the addresses are the cast of the sanitised array. |
| Accounts.RegistrationFields | auth/src/validations/auth.validation.js:5-50 | The role is unset exactly when none was sent, and is seller or user exactly when that string was sent. The username is 3 to 30 word characters, and the password passes its rules. |
| Accounts.UnknownKeysIgnored | auth/src/controllers/auth.controller.js:5-26 | Extra keys in the body change neither the verdict nor the registration, so a body cannot set fields the controller does not pass on. |
| Accounts.NewUser | auth/src/controllers/auth.controller.js:16-28 | A document is saved if and only if the addresses cast and the hook does not throw. It then has the given id, the hashed password and as many addresses as were sent. |
| Accounts.RegisterOutcome | auth/src/controllers/auth.controller.js:4-47 | When a user is added the reply is 201 with that user's view, and the user has the given id and keys nobody else holds. Otherwise the reply is a refusal. |
| Accounts.RegisterRejectsTaken | auth/src/controllers/auth.controller.js:8-14 | A stored user with the same email or the same username gives 409 and nothing is added. |
| Accounts.RegisterFailures | auth/src/controllers/auth.controller.js:38-46 | A failed query or save adds nobody. A failed save gives 409 if and only if its code is 11000, and a failed query gives 500 if and only if its code is not 11000. |
| Accounts.RegisterUnsaveable | auth/src/controllers/auth.controller.js:28-46 | Addresses that fail to cast, or that make the hook throw, give 500 and add nobody. |
| Accounts.RegisterStatus | auth/src/controllers/auth.controller.js:4-47 | The status is 201, 409 or 500. It is 201 if and only if a user is added, which happens exactly when neither store call fails, the keys are free and the addresses can be saved. |
| Accounts.RegisterSuccess | auth/src/controllers/auth.controller.js:16-37 | The added user has the given id and fields, the hashed password, the default role when none was sent, and the normalised addresses. The reply shows exactly its id, username, email, fullName, role and addresses. |
| Accounts.RegisterKeepsKeysUnique | auth/src/models/User.model.js:28-37 | A successful registration keeps usernames and emails unique across the store. |
| Accounts.RegisterAddressesNormal | auth/src/controllers/auth.controller.js:25-28 | The saved user keeps the number of addresses sent. An empty list stays empty, and a non-empty one has exactly one default. |
| Accounts.RegisterTwoPlainAddresses | auth/src/models/User.model.js:67-69 | With two addresses, no default and no fault, the user is added and the reply's first address is default while the second is unchanged. |
| Accounts.CastAllRefusesFalsy | auth/src/models/User.model.js:48 | An element `false`, `0` or `""` anywhere in the sent array makes the cast fail. |
| Accounts.CastAllRefusesBadIsDefault | auth/src/models/User.model.js:9-12 | An address whose `isDefault` is neither null nor a Boolean spelling makes the whole list fail to cast. |
| Accounts.RegisterRefusesBadIsDefault | auth/src/controllers/auth.controller.js:28-45 | Such an address in the body gives 500 and adds nobody, since no validation rule checks `isDefault`. |
| Accounts.RegisterMissingEntry | auth/src/models/User.model.js:62-69 | A `null` first element in a list with no default gives 500. A `null` later element is kept missing while the first address becomes default. |
| Accounts.UserStore.Register | auth/src/controllers/auth.controller.js:4-47 | The reply and the new collection are those of `RegisterOutcome`: one user is appended exactly on success. The id counter moves on exactly then, and the store invariant (fresh ids, unique usernames and emails) is kept. |
| Gate.VerifyToken | auth/src/utils/jwt.js:14-22 | A payload comes back only when the secret is configured and the library verifies the token, and then it is the library's payload. |
| Gate.Decide | auth/src/middlewares/auth.js:4-18 | A request passes only with a non-empty token, carrying what `verifyToken` decoded. Every refusal is 401 "Unauthorized". |
| Gate.DecideCharacterisation | auth/src/middlewares/auth.js:4-18 | A request passes if and only if its token is present, non-empty and verifies under a configured secret, and it then carries the decoded payload. Every refusal is the same 401 "Unauthorized". |
| Gate.BlankSecretRefusesAll | auth/src/utils/jwt.js:17-19 | A secret that is only white space refuses every token. |
| Gate.Authenticate | auth/src/middlewares/auth.js:4-18 | Exactly one of two things happens: a 401 is sent, or `req.user` is set and `next()` is called once. Which one follows the decision. |
| Cookies.NodeEnv | auth/src/config/index.js:9 | NODE_ENV is "development" exactly when it is unset, empty or "development". Otherwise it is the value given. |
| Cookies.SetAuthCookie | auth/src/utils/cookies.js:3-10 | The `token` cookie carries the token and is HttpOnly and SameSite Strict. It is secure exactly in production, with a max age of 604800000 ms (7 days). |
| Cookies.ClearAuthCookie | auth/src/utils/cookies.js:12-18 | The `token` cookie is cleared with HttpOnly, SameSite Strict, secure exactly in production, and no max age. |
| Cookies.ClearMatchesSet | auth/src/utils/cookies.js:3-18 | Clearing names the same cookie, with the same attributes as setting apart from the max age. |
| Cookies.UnsetEnvNotSecure | auth/src/utils/cookies.js:6 | With NODE_ENV unset, neither call marks the cookie secure. |

A few members are definitions whose meaning is stated by the rowed members that use them:

- `Accounts.View`, the field projection of a saved user into the reply (auth/src/controllers/auth.controller.js:30-37), by `Accounts.RegisterOutcome` and `Accounts.RegisterSuccess`.
- `Accounts.Taken`, the `findOne` pre-check on email or username (auth/src/controllers/auth.controller.js:8-10), by `Accounts.RegisterRejectsTaken`, `Accounts.RegisterStatus` and `Accounts.RegisterKeepsKeysUnique`.
- `Validation.ValidEmail`, the email chain (auth/src/validations/auth.validation.js:14-17), by `Accounts.RegistrationOf`, whose verdict includes it and whose email is the library's normalisation of the sent value.
- `Accounts.RoleOf`, the role handed to the schema with its default (auth/src/controllers/auth.controller.js:24, auth/src/models/User.model.js:43-47), by `Accounts.RegistrationFields` and `Accounts.RegisterSuccess`.
- `Gate.SecretConfigured`, the secret guard (auth/src/utils/jwt.js:17-19), by `Gate.VerifyToken`, `Gate.DecideCharacterisation` and `Gate.BlankSecretRefusesAll`.
- `Addresses.LeftOnThrow`, the array after the hook throws (auth/src/models/User.model.js:69, 74), by `Addresses.NormalizeAddresses`, built from `Addresses.FirstMissing` and `Addresses.KeptUpTo`.

## Code and tests

The model follows the code wherever the code and its tests disagree:

- **Two addresses marked default.** A register test expects 400 when two addresses are sent with `isDefault: true`. No rule refuses such a body: the hook keeps the last one as default and the registration succeeds (`Addresses.NormalizeManyDefaults`).
- **The shape of the 201 reply.** The register tests read the created user under `data.user`. The controller answers with a flat object (`Accounts.UserView`).
- **No cookie on registration.** The address tests take the session cookie from the register reply. The controller as written calls neither `generateToken` nor `setAuthCookie`, so `Accounts.Reply` carries no cookie.

## Left out

- Login, logout, profile and the address-book handlers, `validateRequest` and the login and address validation chains are named by the routes but are not part of this model. The cookie helpers are modelled on their own, without their callers.
- The 400 reply's body comes from `validateRequest`, which is not part of this model. `Accounts.RegistrationOf` only reports `ValidationFailed`.
- Mongoose's cast of the `addresses` array is modelled by its outcome only: a `null` element becomes a missing entry, and an element that cannot be cast fails the save with an error that has no code, answered with 500. The order in which Mongoose reports several cast errors is not modelled.
- Addresses.CastString: Mongoose casts an object that has a string `_id` to that `_id`. The model calls every object a cast error. The register route cannot reach the difference, because its `isString` rules refuse an object in an address field first.
- Validation.Stringify: when a field is an array, the validator library checks each item. The model gives no reading (`None`), so such a body is refused.
- Validation.MeasuredLength: its contract states only the upper bound. Exact counts are given by `NoSelectorsMeasured` and `WordCharsMeasured`.
- Dafny strings hold Unicode scalar values, so a JSON string carrying a lone UTF-16 surrogate (`"\ud800"`) cannot be represented. `isLength` would count such a surrogate as one character.
- Numbers in JSON are integers only. JavaScript's spelling of fractions and exponents is not modelled.
- Json.IntToString: JavaScript numbers are doubles, so an integer above 2^53 is rounded before it is spelled (12345678901234567890 reads as "12345678901234567000"). The model keeps every digit.
- Gate.Decide: `cookieParser()` (auth/src/app.js:8) decodes a cookie value that starts with `j:` as JSON, so `token=j:0` gives the number 0, which `!token` refuses. The model takes the cookie as a string and hands "j:0" to `verifyToken`, which refuses it with the same 401 unless the token library accepts that string.
- The email check, email normalisation, bcrypt (salt generation and hashing) and JWT signing and verification are parameters, with no properties assumed. The model therefore cannot show that the stored hash differs from the plain password.
- In the schema, `isDefault: null` is stored as null. The model reads it as `false`, which is how the hook reads it.
- Mongoose saves run with I/O and concurrently. The race that the 11000 branch handles is modelled only as a save fault with that code.
- Object ids, timestamps, `select: false` (password hidden from queries) and `console.error` logging are not modelled.
- The Redis token blacklist, the database connection, app.js and the rest of the configuration are not part of this model.
