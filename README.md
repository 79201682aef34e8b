# ifa accounts: a Dafny model

`ifa` is a small Spring Boot web application with user accounts. A visitor
registers with a username, a password, a first and last name and an age. They
log in with the username and password, change their password or profile, and
delete the account. The users live in a JPA repository. Every service operation
except the profile update begins with the derived query `findByUsernameIgnoreCase`, which returns the
list of stored users whose username equals the query when letter case is
ignored.

This project models the account core:

- `UserServiceImpl` is a class that holds the repository contents as a
  sequence of `User` references plus the password encoder. Its methods change
  the stored sequence and the `User` objects they are given, as the Java does.
  - Registration refuses a name that is already taken, ignoring case. Otherwise
    it encodes the raw password held in the entity and stores the entity.
  - The password check, deletion and the fetch by username all demand exactly
    one lookup match. The age query takes the first match, or answers -1.
  - The profile update copies the names, age and username of the updated
    entity, stores the encoding of its password, and leaves the id alone. It
    does not look the new name up, so it does not check that the name is free.
- `LoginServiceImpl` is the check the login page calls
  (`LoginController.java:35`). It compares the stored hash with the decimal
  text of `String.hashCode` of the submitted password. It queries a
  `LoginRepository`, which is not part of this model; the model takes that
  query to be the same case-insensitive filter over the stored `User`s.
- `User` and `Login` are classes with setters. Their `equals` and `hashCode`
  use only the username and the hashed password. `User.toString` masks the
  password.
- The three web forms, `RegisterOrUpdateForm`, `RegisterForm` and
  `UpdatePasswordForm`, are records with nullable fields. Their Bean
  Validation annotations become a constraint interpreter that reports the
  violations.

The Java library behaviour the code depends on is written out in `JavaText`:

- 32-bit `int` wrap-around;
- UTF-16 length and `String.hashCode`;
- `Integer.toString` and `Integer.toHexString`;
- the case fold.

Two repository invariants are proved to be preserved by registration and
deletion:

- `Distinct`: no entity is stored twice.
- `UniqueUsernames`: no two usernames are equal ignoring case. In the
  application this rests on the database's unique column.

Under these invariants the "exactly one match" policies become the interface's
promises: "the user exists and the password matches", "false if the user does
not exist", and so on. The profile update preserves only `Distinct`, and the
model proves when its new credentials still authenticate.

Modules: `Wrappers`, `JavaText`, `PasswordEncoding`, `Entities`, `Repository`,
`UserService`, `LoginService`, `Forms`, and `Scenarios`. `Scenarios` is client
code that drives the service through registration, login, duplicate refusal,
deletion, a rename that locks the account out, and the login page refusing a
freshly registered account, using only the contracts.

Source paths below are relative to the repository root.

## Model

| member | source | states |
|---|---|---|
| UserService.UserServiceImpl.constructor | src/main/java/edu/carroll/ifa/service/UserServiceImpl.java:18-26 | the service starts over the given repository contents with the given encoder |
| UserService.UserServiceImpl.ValidateUser | src/main/java/edu/carroll/ifa/service/UserServiceImpl.java:36-51 | true exactly when the lookup finds one user and the raw password matches that user's hash; zero or several matches give false; under unique names, true exactly when some user with that name (ignoring case) holds a hash the password matches |
| UserService.UserServiceImpl.SaveUser | src/main/java/edu/carroll/ifa/service/UserServiceImpl.java:59-70 | succeeds exactly when no stored username equals the new one ignoring case; on refusal nothing changes; on success the entity's password becomes the encoding of the raw password it held, the entity is appended to the store, its other fields are untouched, its name then finds it alone, it authenticates with the raw password, and both invariants are preserved |
| UserService.UserServiceImpl.EncodeAndAppend | src/main/java/edu/carroll/ifa/service/UserServiceImpl.java:66-67 | the accepting branch of registration: the password is encoded, the entity appended, the lookup of its name then finds it alone, and both invariants are preserved |
| UserService.UserServiceImpl.SaveUpdatedUser | src/main/java/edu/carroll/ifa/service/UserServiceImpl.java:79-88 | always true; `user` takes the names, age and username of `updatedUser` and the encoding of its password, keeps its id, and is stored if it was not; `Distinct` is preserved; the new credentials authenticate exactly when no other stored user has the new name ignoring case |
| UserService.UserServiceImpl.DeleteUser | src/main/java/edu/carroll/ifa/service/UserServiceImpl.java:96-105 | succeeds exactly when the lookup finds one user (under unique names: exactly when the user exists); on refusal nothing changes; on success exactly that entity is removed, the store shrinks by one, the name then finds nobody, and both invariants are preserved |
| UserService.UserServiceImpl.Remove | src/main/java/edu/carroll/ifa/service/UserServiceImpl.java:101-102 | removing the single matched entity shrinks the store by one, leaves the name unmatched and preserves both invariants |
| UserService.UserServiceImpl.GetUserAge | src/main/java/edu/carroll/ifa/service/UserServiceImpl.java:113-122 | -1 when nobody matches; otherwise the age of the first match; under unique names, the age of the user with that name |
| UserService.UserServiceImpl.GetUserByUserName | src/main/java/edu/carroll/ifa/service/UserServiceImpl.java:130-138 | non-null exactly when the lookup finds one user, and then a stored user with that name ignoring case; under unique names, non-null exactly when the user exists |
| UserService.UserServiceImpl.EmptyLookupMeansNoHolder | src/main/java/edu/carroll/ifa/service/UserServiceImpl.java:60-64 | the lookup is empty exactly when no stored username equals the name ignoring case (the condition registration branches on) |
| UserService.UserServiceImpl.UniqueLookupFindsHolder | src/main/java/edu/carroll/ifa/service/UserService.java:11-47 | under unique names the lookup has exactly one result exactly when the user exists, so "size != 1" in the implementation means "does not exist" in the interface |
| UserService.UserServiceImpl.SoleHolderAuthenticates | src/main/java/edu/carroll/ifa/service/UserServiceImpl.java:38-46 | when no entity is stored twice, a stored user whose hash encodes a raw password authenticates with it exactly when no other stored user has the same name ignoring case |
| UserService.UserServiceImpl.OnlyTheRegisteredPasswordAuthenticates | src/main/java/edu/carroll/ifa/service/UserServiceImpl.java:38-46 | with a collision-free digest, the sole holder of a name whose hash encodes `raw` authenticates with `raw` and with no other password: a wrong password fails |
| Repository.FindByUsernameIgnoreCase | src/main/java/edu/carroll/ifa/jpa/repo/UserRepository.java:17 | the result is no longer than the store, every result matches the name ignoring case, and every matching stored user is in the result |
| Repository.FoundAreStored | src/main/java/edu/carroll/ifa/jpa/repo/UserRepository.java:17 | every user the lookup returns is a stored user |
| Repository.FindAfterAppend | src/main/java/edu/carroll/ifa/jpa/repo/UserRepository.java:17 | storing one more user extends the lookup by that user exactly when it matches, keeping stored order |
| Repository.AppendUnmatched | src/main/java/edu/carroll/ifa/service/UserServiceImpl.java:60-67 | storing a user whose name nobody holds makes that name find exactly that user, and preserves both invariants |
| Repository.AppendNew | src/main/java/edu/carroll/ifa/service/UserServiceImpl.java:60-67 | appending a user whose name no stored user holds keeps entities distinct |
| Repository.AppendUnique | src/main/java/edu/carroll/ifa/service/UserServiceImpl.java:60-67 | appending a user whose name no stored user holds keeps names unique |
| Repository.UniqueUsernamesAreDistinct | src/main/java/edu/carroll/ifa/jpa/model/User.java:18-19 | unique usernames imply that no entity is stored twice |
| Repository.UniqueSplit | src/main/java/edu/carroll/ifa/jpa/model/User.java:18-19 | uniqueness holds of the store without its last user, and the last name clashes with no earlier one |
| Repository.UniqueLookup | src/main/java/edu/carroll/ifa/jpa/repo/UserRepository.java:12-17 | under unique names the lookup returns at most one user, and exactly one exactly when some stored name matches |
| Repository.Without | src/main/java/edu/carroll/ifa/service/UserServiceImpl.java:102 | deletion leaves no copy of the deleted entity and keeps every other stored entity |
| Repository.WithoutWithin | src/main/java/edu/carroll/ifa/service/UserServiceImpl.java:102 | deletion adds nothing: every remaining entity was stored before |
| Repository.DeleteSingleMatch | src/main/java/edu/carroll/ifa/service/UserServiceImpl.java:97-102 | deleting the single entity a lookup found removes exactly one entry, and the same lookup then finds nobody |
| Repository.WithoutAbsent | src/main/java/edu/carroll/ifa/service/UserServiceImpl.java:102 | deleting an entity that is not stored changes nothing |
| Repository.WithoutPreserves | src/main/java/edu/carroll/ifa/service/UserServiceImpl.java:102 | deletion preserves both invariants |
| Repository.FindOnly | src/main/java/edu/carroll/ifa/service/UserServiceImpl.java:41-43 | when no entity is stored twice, a stored matching entity is the whole lookup result exactly when no other stored user matches the name |
| Repository.FindNone | src/main/java/edu/carroll/ifa/service/UserServiceImpl.java:114-121 | the lookup is empty exactly when no stored username matches the name ignoring case |
| LoginService.ValidateLogin | src/main/java/edu/carroll/ifa/service/LoginServiceImpl.java:25-41 | acceptance implies exactly one lookup match and a stored user with that name holding the decimal text of the password's hash code |
| LoginService.AcceptsExactlyTheHashCode | src/main/java/edu/carroll/ifa/service/LoginServiceImpl.java:35-37 | when the single matching user holds the decimal text of `h`, a password is accepted exactly when its hash code is `h` |
| LoginService.RejectsUnlessExactlyOne | src/main/java/edu/carroll/ifa/service/LoginServiceImpl.java:30-31 | zero or several matches reject every password |
| LoginService.UniqueNamesLogin | src/main/java/edu/carroll/ifa/service/LoginServiceImpl.java:25-41 | under unique names the check accepts exactly when some user with that name holds the password's legacy hash |
| LoginService.EqualHashCodesAreInterchangeable | src/main/java/edu/carroll/ifa/service/LoginServiceImpl.java:33-37 | two passwords with the same hash code are accepted or rejected together |
| LoginService.HashCodeOfPair | src/main/java/edu/carroll/ifa/service/LoginServiceImpl.java:35 | for two characters below U+10000, the hash code of the string is 31 times the first character plus the second |
| LoginService.RegisteredUserCannotLogIn | src/main/java/edu/carroll/ifa/service/LoginServiceImpl.java:25-41 | a user found alone whose stored hash is a password encoding is refused whatever password is submitted |
| LoginService.CollidingPasswords | src/main/java/edu/carroll/ifa/service/LoginServiceImpl.java:33-37 | "Aa" and "BB" both hash to 2112, so the legacy check accepts either for an account holding one of them |
| PasswordEncoding.PasswordEncoder.Encode | src/main/java/edu/carroll/ifa/service/UserServiceImpl.java:18 | an encoding starts with the version, cost and salt, and matches the raw password it was made from |
| PasswordEncoding.OnlyTheEncodedPasswordMatches | src/main/java/edu/carroll/ifa/service/UserServiceImpl.java:45 | with a collision-free digest, an encoding matches no raw password other than its own |
| PasswordEncoding.SaltsMakeEncodingsDiffer | src/main/java/edu/carroll/ifa/service/UserServiceImpl.java:66 | two encodings of one password under different salts differ, and both match it |
| Entities.User.constructor | src/main/java/edu/carroll/ifa/jpa/model/User.java:43-49 | the five arguments are stored and the id is unset |
| Entities.User.SetUsername | src/main/java/edu/carroll/ifa/jpa/model/User.java:73-76 | sets the username and no other field |
| Entities.User.SetFirstName | src/main/java/edu/carroll/ifa/jpa/model/User.java:91-94 | sets the first name and no other field |
| Entities.User.SetLastName | src/main/java/edu/carroll/ifa/jpa/model/User.java:109-112 | sets the last name and no other field |
| Entities.User.SetAge | src/main/java/edu/carroll/ifa/jpa/model/User.java:127-130 | sets the age and no other field |
| Entities.User.SetHashedPassword | src/main/java/edu/carroll/ifa/jpa/model/User.java:145-148 | sets the hashed password and no other field |
| Entities.User.ToString | src/main/java/edu/carroll/ifa/jpa/model/User.java:183-190 | the text ends with the masked password slot and closing bracket |
| Entities.CredentialsHash | src/main/java/edu/carroll/ifa/jpa/model/User.java:170-174 | `Objects.hash` of two strings is 961 + 31 times the first hash + the second hash, wrapped to 32 bits |
| Entities.UserEqualsIffSameCredentials | src/main/java/edu/carroll/ifa/jpa/model/User.java:155-164 | two users are equal exactly when username and hashed password are equal, case-sensitively |
| Entities.UserEqualsReflexiveSymmetric | src/main/java/edu/carroll/ifa/jpa/model/User.java:155-164 | equality is reflexive and symmetric |
| Entities.UserHashCodeAgreesWithEquals | src/main/java/edu/carroll/ifa/jpa/model/User.java:155-174 | equal users have equal hash codes |
| Entities.UserNeverEqualsOther | src/main/java/edu/carroll/ifa/jpa/model/User.java:159-160 | a user is never equal to null or to an object of any other class |
| Entities.ToStringHidesPassword | src/main/java/edu/carroll/ifa/jpa/model/User.java:183-190 | two users with the same username and hash code print the same, so the text reveals nothing of the password beyond the hash code |
| Entities.Login.constructor | src/main/java/edu/carroll/ifa/jpa/model/Login.java:10-24 | the implicit no-argument constructor: every field starts empty and the id unset |
| Entities.Login.SetId | src/main/java/edu/carroll/ifa/jpa/model/Login.java:30-32 | sets the id and no other field |
| Entities.Login.SetUsername | src/main/java/edu/carroll/ifa/jpa/model/Login.java:38-40 | sets the username and no other field |
| Entities.Login.SetFirstName | src/main/java/edu/carroll/ifa/jpa/model/Login.java:46-48 | sets the first name and no other field |
| Entities.Login.SetLastName | src/main/java/edu/carroll/ifa/jpa/model/Login.java:54-56 | sets the last name and no other field |
| Entities.Login.SetAge | src/main/java/edu/carroll/ifa/jpa/model/Login.java:62-64 | sets the age and no other field |
| Entities.Login.SetHashedPassword | src/main/java/edu/carroll/ifa/jpa/model/Login.java:70-72 | sets the hashed password and no other field |
| Entities.LoginEqualsIffSameCredentials | src/main/java/edu/carroll/ifa/jpa/model/Login.java:74-83 | two logins are equal exactly when username and hashed password are equal |
| Entities.LoginHashCodeAgreesWithEquals | src/main/java/edu/carroll/ifa/jpa/model/Login.java:74-88 | equal logins have equal hash codes |
| Entities.LoginEqualsReflexiveSymmetric | src/main/java/edu/carroll/ifa/jpa/model/Login.java:74-83 | equality is reflexive and symmetric |
| Forms.TextViolations | src/main/java/edu/carroll/ifa/web/form/RegisterOrUpdateForm.java:10-21 | a text field reports no violation exactly when it satisfies every one of its constraints, and every report names that field |
| Forms.IntViolations | src/main/java/edu/carroll/ifa/web/form/RegisterOrUpdateForm.java:23-26 | an integer field reports no violation exactly when it satisfies every one of its constraints, and every report names that field |
| Forms.TextViolationsOfPair | src/main/java/edu/carroll/ifa/web/form/RegisterOrUpdateForm.java:10-21 | proof helper: a two-constraint text field reports the union of what each constraint reports |
| Forms.IntViolationsOfOne | src/main/java/edu/carroll/ifa/web/form/RegisterForm.java:23-24 | proof helper: a one-constraint field reports what that constraint reports |
| Forms.IntViolationsOfTriple | src/main/java/edu/carroll/ifa/web/form/RegisterOrUpdateForm.java:23-26 | proof helper: a three-constraint field reports the union of what each constraint reports |
| Forms.UsernameConstraintsMean | src/main/java/edu/carroll/ifa/web/form/RegisterOrUpdateForm.java:10-12 | the username annotations pass exactly when the username is present and at least 6 UTF-16 units long |
| Forms.PasswordConstraintsMean | src/main/java/edu/carroll/ifa/web/form/RegisterOrUpdateForm.java:13-15 | the password annotations pass exactly when the password is present and at least 8 units long, with no upper bound |
| Forms.NameConstraintsMean | src/main/java/edu/carroll/ifa/web/form/RegisterOrUpdateForm.java:16-21 | the name annotations pass exactly when the name is present and non-empty |
| Forms.AgeConstraintsMean | src/main/java/edu/carroll/ifa/web/form/RegisterOrUpdateForm.java:22-26 | the age annotations pass exactly when the age is present and between 1 and 126 inclusive |
| Forms.RegisterOrUpdateForm.Violations | src/main/java/edu/carroll/ifa/web/form/RegisterOrUpdateForm.java:10-26 | the form reports no violation exactly when every field rule holds |
| Forms.RegisterForm.Violations | src/main/java/edu/carroll/ifa/web/form/RegisterForm.java:10-24 | the form reports no violation exactly when every field rule holds, any present age passing |
| Forms.UpdatePasswordForm.Violations | src/main/java/edu/carroll/ifa/web/form/UpdatePasswordForm.java:8-22 | the form reports no violation exactly when each of its four fields satisfies its own rule |
| Forms.AgeBoundaries | src/main/java/edu/carroll/ifa/web/form/RegisterOrUpdateForm.java:23-26 | ages 1 and 126 pass; 0, 127 and null do not |
| Forms.RegisterOrUpdateIsRegisterWithAgeRange | src/main/java/edu/carroll/ifa/web/form/RegisterOrUpdateForm.java:10-26 | a registration-or-update form is valid exactly when the same fields make a valid registration form and the age is in range |
| Forms.RegisterFormAgeOnlyRequired | src/main/java/edu/carroll/ifa/web/form/RegisterForm.java:22-24 | the registration form rejects an age only when it is null, with the message "Age is required" |
| Forms.NullNameReportsTwice | src/main/java/edu/carroll/ifa/web/form/RegisterOrUpdateForm.java:16-18 | a null first name produces both of its messages |
| Forms.NullUsernameReportedOnce | src/main/java/edu/carroll/ifa/web/form/UpdatePasswordForm.java:8-10 | a null username is reported as null only, never as too short |
| Forms.UsernameLengthInCodeUnits | src/main/java/edu/carroll/ifa/web/form/RegisterOrUpdateForm.java:11 | the size counts UTF-16 units: three characters above the basic plane are long enough, three letters are not |
| Forms.BlankNamePasses | src/main/java/edu/carroll/ifa/web/form/RegisterOrUpdateForm.java:17 | a name of one space passes the not-empty rule |
| Forms.ConfirmationNotCompared | src/main/java/edu/carroll/ifa/web/form/UpdatePasswordForm.java:16-22 | the form accepts a new password that differs from its confirmation |
| JavaText.Wrap | src/main/java/edu/carroll/ifa/jpa/model/User.java:173 | the wrapped value is congruent to the exact value modulo 2^32 |
| JavaText.WrapInRange | src/main/java/edu/carroll/ifa/jpa/model/User.java:173 | a value already in `int` range is not changed |
| JavaText.WrapCongruent | src/main/java/edu/carroll/ifa/jpa/model/User.java:173 | wrapping depends only on the residue modulo 2^32 |
| JavaText.WrapStep | src/main/java/edu/carroll/ifa/jpa/model/User.java:173 | wrapping the accumulator before a `31 * h + c` step gives the same result as not wrapping it |
| JavaText.HashUnitsIsWrappedPolynomial | src/main/java/edu/carroll/ifa/service/LoginServiceImpl.java:35 | the 32-bit hash loop equals the exact polynomial in 31, wrapped once |
| JavaText.CodeUnits | src/main/java/edu/carroll/ifa/web/form/RegisterOrUpdateForm.java:11 | one code unit for a character of the basic plane, a high-then-low surrogate pair above it |
| JavaText.SurrogatePairDecodes | src/main/java/edu/carroll/ifa/web/form/RegisterOrUpdateForm.java:11 | the surrogate pair of a character above the basic plane decodes back to that character |
| JavaText.Utf16 | src/main/java/edu/carroll/ifa/web/form/RegisterOrUpdateForm.java:11 | a string has between one and two code units per character, each a 16-bit value |
| JavaText.JavaLengthOfBmp | src/main/java/edu/carroll/ifa/web/form/RegisterOrUpdateForm.java:11 | a string of basic-plane characters is as long as its character count |
| JavaText.JavaLengthOfSupplementary | src/main/java/edu/carroll/ifa/web/form/RegisterOrUpdateForm.java:11 | a string of characters above the basic plane is twice as long as its character count |
| JavaText.Digits | src/main/java/edu/carroll/ifa/service/LoginServiceImpl.java:35 | at least one digit, every one a digit character (decimal ones in base 10), no leading zero |
| JavaText.DigitsRoundTrip | src/main/java/edu/carroll/ifa/service/LoginServiceImpl.java:35 | reading back the digits of `n` gives `n` |
| JavaText.DecimalString | src/main/java/edu/carroll/ifa/service/LoginServiceImpl.java:35 | non-empty, starts with '-' exactly when the value is negative, and otherwise with a decimal digit |
| JavaText.DecimalRoundTrip | src/main/java/edu/carroll/ifa/service/LoginServiceImpl.java:35 | reading back `Integer.toString(n)` gives `n` |
| JavaText.DecimalStringInjective | src/main/java/edu/carroll/ifa/service/LoginServiceImpl.java:35-36 | different hash codes give different decimal strings |
| JavaText.HexString | src/main/java/edu/carroll/ifa/jpa/model/User.java:185 | `Integer.toHexString` gives between 1 and 8 digits |
| JavaText.ToLowerAscii | src/main/java/edu/carroll/ifa/jpa/repo/UserRepository.java:17 | the result is never an upper-case letter; a character is unchanged exactly when it is not upper-case; an upper-case letter becomes the lower-case letter in the same alphabet position |
| JavaText.FoldCaseCharwise | src/main/java/edu/carroll/ifa/jpa/repo/UserRepository.java:17 | proof helper: the case fold lower-cases each character in place and keeps the length |
| JavaText.FoldCaseIdempotent | src/main/java/edu/carroll/ifa/jpa/repo/UserRepository.java:17 | folding twice is folding once |
| JavaText.EqualsIgnoreCaseCharwise | src/main/java/edu/carroll/ifa/jpa/repo/UserRepository.java:17 | two names are equal ignoring case exactly when they have the same length and agree character by character after lower-casing |

## Left out

- Null fields and the no-argument `User` constructor (User.java:32-33) are not modelled. Entity strings are never null here. The forms do model null, as `None`.
- Entities.Login.constructor: Java's implicit constructor leaves every field null; the model starts the strings empty and the age at 0, because its fields are not nullable.
- Id generation, transactions, and the database's own unique constraint on `username` are not modelled. The unique constraint appears only as the `UniqueUsernames` invariant that registration and deletion are proved to preserve. `save` of an entity that is already stored is modelled as leaving the sequence unchanged.
- The order of the list the repository returns is taken to be stored order. JPA promises no order.
- A database row is identified with a Dafny object reference. JPA identifies rows by id: `save` of a different object carrying a stored id merges into that row, and `delete` removes the row with the entity's id. Neither id-based merge nor id-based delete is modelled; `SaveUpdatedUser` decides whether to append by object identity, and `DeleteUser` removes the entity object.
- UserService.UserServiceImpl.SaveUser: the generated id is not assigned. In Java, persisting a new entity writes its `@GeneratedValue` id (User.java:15-17) into that same object; in the model the id stays unset after a successful save, which is why the contract states `user.id == old(user.id)` on both branches.
- UserService.UserServiceImpl.ValidateUser: a null username or password is not modelled (the parameters are non-null strings); what the repository query does with a null name and whether the encoder accepts a null raw password is library behaviour outside this model.
- UserService.UserServiceImpl.DeleteUser: a null username is not modelled, for the same reason.
- UserService.UserServiceImpl.GetUserAge: a null username is not modelled, for the same reason.
- UserService.UserServiceImpl.GetUserByUserName: a null username is not modelled, for the same reason.
- LoginService.ValidateLogin: a null username or password is not modelled; `LoginServiceImpl.java:35` throws on a null password, which the model does not represent.
- bcrypt is not modelled inside. The digest is a parameter of the encoder. The random salt is an argument of `SaveUser`, `EncodeAndAppend` and `SaveUpdatedUser`. bcrypt's 72-byte input limit is not modelled, so `OnlyTheEncodedPasswordMatches` assumes a collision-free digest.
- JavaText.EqualsIgnoreCase: the case fold lower-cases ASCII letters only. The database collation and Java's full Unicode case rules are not modelled.
- Entities.User.ToString: `System.lineSeparator()` is a parameter. The `Object.toString` part is written as the class name and the hex hash code.
- `LoginRepository` (LoginServiceImpl.java:12,27) is not part of this model. LoginService.ValidateLogin takes its query to be `findByUsernameIgnoreCase` over the stored `User`s.
- Logging (`logger.info`) is not modelled. Neither are the web controllers, the `LoginForm` class (its two fields are the parameters of `ValidateLogin`), or the form getters and setters, whose fields are the datatype fields.
- `updatePassword` and `updateUser` are declared in `UserService.java` (lines 55 and 62), but `UserServiceImpl.java` does not implement them, so there is nothing to model. Conversely, the two-argument `saveUser(User, User)` is modelled as the implementation writes it, although the interface does not declare it.
- UserService.UserServiceImpl.GetUserAge: the age is an unbounded `int`. The Java `Integer` is 32-bit and non-null; the age forms bound it to 1-126 only when a form was used.
- UserService.UserServiceImpl.EncodeAndAppend: the password is written after the entity is appended, whereas the Java encodes first and saves second. The store holds references, so the final state is the same.
- UserService.UserServiceImpl.SaveUpdatedUser: the invariant `UniqueUsernames` is not claimed to be preserved. The source does not check the new name, and the lemma in its contract states exactly when the new credentials still authenticate.

## Findings

| source | as written | input that shows it | evidently intended | confidence | as-written member | corrected member |
|---|---|---|---|---|---|---|
| src/main/java/edu/carroll/ifa/service/LoginServiceImpl.java:35-37 | the login page's check compares the stored hash with `Integer.toString(password.hashCode())`, but registration (UserServiceImpl.java:66) stores a bcrypt encoding, which begins with '$' and so never equals the decimal text of an `int` | register `bob_johnson` with password `1234567!`, then log in with `bob_johnson` / `1234567!`: refused | a registered user logs in with the password they registered, by matching it against the stored encoding with the password encoder | high (not executed) | LoginService.RegisteredUserCannotLogIn | UserService.UserServiceImpl.ValidateUser |

The corrected behaviour is the service's own password check: `UserService.UserServiceImpl.SaveUser` ensures that the stored user then satisfies `Authenticates` with the raw password, which is exactly when `UserService.UserServiceImpl.ValidateUser` answers true. `Scenarios.RegisteredUserRefusedAtLogin` walks both through on one account.
