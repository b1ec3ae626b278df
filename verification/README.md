# Credential and role core of DotnetFullstackTemplate, in Dafny

This project models the user, password, role and authentication logic of the
DotnetFullstackTemplate repository (C#, ASP.NET Core with EF Core). It models
two versions, each as its own set of modules:

- **The current version (`src/`)**:
  - the password policy (`UserPasswordValidationService`) and its result types;
  - the salted HMAC-SHA-512 password digests (`UserPasswordService`);
  - user creation, role reconciliation and password change (`UserService`) over an in-memory user repository (`UserRepository`);
  - the authentication decision and JSON Web Token contents (`UserAuthenticationService`);
  - user validation (`UserValidationService`) and the capability check (`UserCapabilitiesService`);
  - first-start seeding (`InitialSetupService`);
  - the message tables and string formatters;
  - `GenericResponse`;
  - the paging options (`Query`, `PagingatedQuery`).
- **The older root-level version** (Guid ids):
  - `UserContextService`, which parses the role ids of the request's claims;
  - the `AdminHandler` authorization requirement;
  - `UserPasswordService`, which tells a null password from a blank one;
  - the synchronous `Authenticate`;
  - `UserService`, including the stable `GetAll` ordering;
  - the `UserRepository`, whose `Update` reconciles a user's roles in place;
  - `InitialSetupService`, which inserts the roles one at a time.

The store is modelled in memory:

- The current repository holds a map of user records and a set of (UserId, RoleId) rows.
- The older repository holds a table of records, each with its own role rows.
- The unique indexes become invariants of each store: (UserId, RoleId), and the username in the older version. So do the older table's column widths: at most 50 characters for each name and 255 for the username. A save that would break one fails with `DbUpdateException`, and nothing is stored.

Exceptions are values of a `Result` type. They carry the exception kind, and for `ArgumentException` also the message and the parameter name. A null reference is `None` of an `Option`.

Foreign pieces are parameters:

- HMAC-SHA-512 is a function whose every result is 64 bytes.
- The UTF-8 and ASCII encoders are functions.
- The random 128-byte key is an argument.
- `Guid.Parse` and `Guid.ToString` are functions.
- The current time is a number of seconds.
- The numeric values of the `Roles` enumeration are a `RoleNumbering(administrator, user)`. `WellFormedNumbering` asks that they differ.

`int.Parse`, `int.ToString`, `string.Split` and `string.Join` are modelled in the module `Numbers`, following the .NET base library (invariant culture).

## Model

| member | source | states |
|---|---|---|
| `UserPasswordValidationService.LetterAndNumberMeaning` | src/Service.Implementation/Users/UserPasswordValidationService.cs:15-16 | the regex `[A-Za-z]+\d+.*` matches somewhere iff some ASCII letter is immediately followed by a digit |
| `UserPasswordValidationService.UpperAndLowerMeaning` | src/Service.Implementation/Users/UserPasswordValidationService.cs:18-19 | the two lookaheads match at some position iff one newline-free stretch holds both a lower-case and an upper-case ASCII letter |
| `UserPasswordValidationService.FailedRuleMessages` | src/Service.Implementation/Users/UserPasswordValidationService.cs:32-38 | at most one message per rule of the table |
| `UserPasswordValidationService.PolicyErrors` | src/Service.Implementation/Users/UserPasswordValidationService.cs:22-41 | a blank or null password gives exactly the EmptyWhiteSpace message; otherwise the messages of the failing rules in table order, given by the rules' meaning |
| `UserPasswordValidationService.RuleTableErrors` | src/Service.Implementation/Users/UserPasswordValidationService.cs:13-20 | the rule table reports LetterAndNumber then UpperAndLower, each exactly when its rule fails |
| `UserPasswordValidationService.NonBlankErrors` | src/Service.Implementation/Users/UserPasswordValidationService.cs:32-40 | a non-blank password gets the LetterAndNumber message iff no letter is followed by a digit, then the UpperAndLower message iff no line holds both cases |
| `UserPasswordValidationService.Validate` | src/Service.Implementation/Users/UserPasswordValidationService.cs:22-41 | the loop fills a fresh result's Errors with exactly PolicyErrors(password) |
| `UserPasswordValidationService.PolicyErrorsShape` | src/Service.Implementation/Users/UserPasswordValidationService.cs:26-40 | zero to two errors, none repeated; valid iff the password is non-blank and both rules hold |
| `UserPasswordValidationService.PolicyAcceptsTest1` | src/Service.Test/Users/UserPasswordValidationServiceTest.cs:23-110 | "Test1" has no errors |
| `UserPasswordValidationService.PolicyAcceptsAdminPassword` | src/Service.Implementation/Init/InitialSetupService.cs:41 | the bootstrap password "Admin1!" has no errors |
| `UserPasswordValidationService.PolicyRejectsLowerCaseOnly` | src/Service.Test/Users/UserPasswordValidationServiceTest.cs:23-110 | "test1" fails only UpperAndLower |
| `UserPasswordValidationService.PolicyRejectsNoDigit` | src/Service.Test/Users/UserPasswordValidationServiceTest.cs:23-110 | "Test" fails only LetterAndNumber |
| `UserPasswordValidationService.PolicyRejectsBoth` | src/Service.Test/Users/UserPasswordValidationServiceTest.cs:23-110 | "test" fails both rules, in table order |
| `UserPasswordValidationService.PolicyRejectsBlank` | src/Service.Implementation/Users/UserPasswordValidationService.cs:26-30 | "", "   " and null give exactly [EmptyWhiteSpace] |
| `UserPasswordValidationService.DigitsBeforeLettersFail` | src/Service.Implementation/Users/UserPasswordValidationService.cs:15-16 | a password whose digits all precede its letters fails LetterAndNumber |
| `ValidationResults.PasswordValidationResult.constructor` | src/Service.Model/Users/PasswordValidationResult.cs:9-10 | a new result has a fresh empty Errors list and is valid |
| `ValidationResults.PasswordErrorAddedInvalidates` | src/Service.Model/Users/PasswordValidationResult.cs:9-10 | appending a message makes the result invalid, with the message last |
| `ValidationResults.UserValidationResult.constructor` | src/Service.Model/Users/UserValidationResult.cs:10-11 | a new result has a fresh empty Errors list and is valid |
| `ValidationResults.UserErrorAddedInvalidates` | src/Service.Model/Users/UserValidationResult.cs:10-11 | appending a message makes the result invalid, with the message last |
| `UserPasswordService.HashOf` | src/Service.Implementation/Users/UserPasswordService.cs:20-24 | the digest is 64 bytes and the salt is the fresh 128-byte key |
| `UserPasswordService.CreateHash` | src/Service.Implementation/Users/UserPasswordService.cs:11-25 | a blank or null password throws ArgumentException(EmptyWhiteSpace message, "password"); otherwise HMAC-SHA-512(key, UTF-8(password)) with the key as salt |
| `UserPasswordService.ValidateHash` | src/Service.Implementation/Users/UserPasswordService.cs:27-63 | the guards, then the compare loop: true iff all 64 bytes agree |
| `UserPasswordService.GuardOrder` | src/Service.Implementation/Users/UserPasswordService.cs:29-48 | the first failing guard decides the exception: blank password, then hash length, then salt length |
| `UserPasswordService.HashRoundTrip` | src/Service.Implementation/Users/UserPasswordService.cs:20-24 | a non-blank password validates against the pair CreateHash made from it |
| `UserPasswordService.HashCheckTestVectors` | src/Service.Test/Users/UserPasswordServiceTest.cs:68-94 | a 1-byte hash raises Expected64ByteHash; a 1-byte salt beside a 64-byte hash raises Expected128ByteSalt |
| `UserStore.UserRepository.constructor` | src/Data.Implementation/User/UserRepository.cs:15 | an empty store |
| `UserStore.UserRepository.InsertAsync` | src/Service.Implementation/Users/UserService.cs:36-53 | a new record under a new identity id, its rows pointing at it; a role id given twice breaks the unique index, a role id that is not a Role key breaks the foreign key, and either way DbUpdateException with nothing stored |
| `UserStore.UserRepository.DeleteAsync` | src/Data.Implementation/User/UserRepository.cs:17-30 | unknown id: false, no change; known id: only IsActive becomes false, and true |
| `UserStore.UserRepository.GetByIdWithRolesAsync` | src/Data.Implementation/User/UserRepository.cs:32-38 | finds the record with its rows iff it exists and is active |
| `UserStore.UserRepository.GetByUsernameWithRolesAsync` | src/Data.Implementation/User/UserRepository.cs:40-46 | among active users only: none, the single one, or InvalidOperationException for several |
| `UserStore.UserRepository.UpdateAsync` | src/Data.Implementation/User/UserRepository.cs:48-60 | only the three name fields change; an unknown id is a null dereference |
| `UserStore.UserRepository.AddUserRolesAsync` | src/Data.Implementation/User/UserRepository.cs:62-84 | exactly the given rows are added, or DbUpdateException with no change for a repeated or stored row, a row of an unknown user, or a row whose role id is not a Role key |
| `UserStore.UserRepository.RemoveUserRolesAsync` | src/Data.Implementation/User/UserRepository.cs:86-94 | exactly the given rows are removed, or DbUpdateException if one is not stored |
| `UserStore.UserRepository.UpdatePasswordAsync` | src/Data.Implementation/User/UserRepository.cs:96-110 | a null or unknown id finds nothing; otherwise only hash and salt change, active or not |
| `UserService.RolesToAdd` | src/Service.Implementation/Users/UserService.cs:132-139 | the lazy query tests each requested id against the live Roles collection, rows already added included; each row is for the user and carries an id the user does not hold |
| `UserService.RolesToAddCounts` | src/Service.Implementation/Users/UserService.cs:132-139 | each requested id the user does not hold is added exactly once, and no other id is added |
| `UserService.RepeatedRequestAddedOnce` | src/Service.Implementation/Users/UserService.cs:132-139 | a missing id requested twice gives one row |
| `UserService.ReconciliationDisjoint` | src/Service.Implementation/Users/UserService.cs:147-149 | no id to add is the id of a row to remove |
| `UserService.AddedIdsRequested` | src/Service.Implementation/Users/UserService.cs:132-139 | every id to add was requested |
| `UserService.ReconciliationOutcome` | src/Service.Implementation/Users/UserService.cs:126-157 | after adding and removing, the user's role ids are exactly the requested ones |
| `UserService.RowsAfterChange` | src/Service.Implementation/Users/UserService.cs:141-154 | adding and removing one user's rows leaves every other user's rows alone |
| `UserService.RowsOfNewUser` | src/Service.Implementation/Users/UserService.cs:46-53 | the rows of a new id are exactly the rows inserted with it |
| `UserService.ReconciliationIdempotent` | src/Service.Implementation/Users/UserService.cs:141-154 | when the user already holds exactly the requested ids, both lists are empty |
| `UserService.DistinctIffSingleCounts` | src/Service.Implementation/Users/UserService.cs:132-139 | a list has no repeats iff no value occurs twice in its multiset |
| `UserService.DistinctRowsOfOneUser` | src/Data.Model/EntityTypeConfigurations/Roles/UserRoleEntityConfiguration.cs:22-23 | one user's rows are distinct iff their role ids are |
| `UserService.AddListDistinct` | src/Data.Implementation/User/UserRepository.cs:77-82 | the rows AddRangeAsync stores never break the unique (UserId, RoleId) index |
| `UserService.AddListKeys` | src/Data.Model/EntityTypeConfigurations/Roles/UserRoleEntityConfiguration.cs:29-31 | the add list satisfies the role foreign key iff every requested id the user lacks is a Role key |
| `UserService.HeldIdsNotAdded` | src/Service.Implementation/Users/UserService.cs:132-139 | an id the user holds is never added |
| `UserService.CreateUserAsync` | src/Service.Implementation/Users/UserService.cs:29-55 | blank password: the hasher's exception, nothing stored; a repeated role, or a role id that is not a Role key: DbUpdateException, nothing stored; otherwise a new active record with copied names, the hash pair and one row per role |
| `UserService.UpdateUserRolesAsync` | src/Service.Implementation/Users/UserService.cs:126-157 | a missing or inactive user is a null dereference; a requested id the user lacks that is not a Role key: DbUpdateException and no change; otherwise it succeeds, the user's rows become the requested ids, each once, and other users' rows stay; no change when they already are |
| `UserService.UpdateUserPasswordAsync` | src/Service.Implementation/Users/UserService.cs:159-167 | a blank password throws; otherwise exactly the pair CreateHash made is written |
| `UserAuthenticationService.AuthenticateAsync` | src/Api/Core/Authentication/UserAuthenticationService.cs:32-64 | the method, with its claim-building loop, returns exactly Authentication(...) |
| `UserAuthenticationService.TokenIffCredentials` | src/Api.Test/Users/UserAuthenticationServiceTest.cs:60-103 | a token is issued iff the user exists, is active, the password validates and the roles are loaded |
| `UserAuthenticationService.UnknownOrInactiveRejected` | src/Api/Core/Authentication/UserAuthenticationService.cs:34-38 | a missing or inactive user gets null without the password being checked |
| `UserAuthenticationService.HashCheckFailuresPropagate` | src/Api/Core/Authentication/UserAuthenticationService.cs:40-43 | ValidateHash's exceptions reach the caller |
| `UserAuthenticationService.TokenContent` | src/Api/Core/Authentication/UserAuthenticationService.cs:46-60 | the Name claim with the id first, then one Role claim per role in order; expiry now + 1800 s; ASCII secret key; HMAC-SHA-256 |
| `UserAuthenticationService.NameClaimParsesBack` | src/Api/Core/Authentication/UserAuthenticationService.cs:50 | the Name claim of a 32-bit id parses back to it |
| `UserValidationService.ValidateUser` | src/Service.Implementation/Users/UserValidationService.cs:17-28 | the errors are the policy's errors followed by "Email Already Exists" iff the username is taken |
| `UserValidationService.TakenMessageNotAPolicyMessage` | src/Service.Implementation/Users/UserValidationService.cs:22-25 | the taken-username message is none of the policy's messages |
| `UserValidationService.ValidIff` | src/Service.Test/Users/UserValidationResultTest.cs:48-97 | valid iff the password passes the policy and the username is free |
| `UserValidationService.TakenReportedIff` | src/Service.Implementation/Users/UserValidationService.cs:22-25 | the taken message appears iff the username is taken, and then it is last |
| `UserCapabilitiesService.CanManageUsers` | src/Service.Implementation/Users/UserCapabilitiesService.cs:33-39 | true iff some role's id is the Administrator value |
| `UserCapabilitiesService.GetUserCapabilities` | src/Service.Implementation/Users/UserCapabilitiesService.cs:24-31 | a user not found is a null dereference; otherwise CanManageUsers of its roles |
| `UserCapabilitiesService.CanManageUsersBySet` | src/Service.Implementation/Users/UserCapabilitiesService.cs:35-38 | only the set of held ids matters, not order or repetition |
| `UserCapabilitiesService.CanManageUsersMonotone` | src/Service.Implementation/Users/UserCapabilitiesService.cs:35-38 | more roles never remove the capability |
| `UserCapabilitiesService.PlainUserCannotManage` | src/Service.Test/Users/UserCapabilitiesServiceTest.cs:40-56 | with distinct enum values, a User-only user cannot manage users |
| `RoleStore.RoleRepository.GetRoleCount` | src/Service.Implementation/Init/InitialSetupService.cs:57-60 | the number of stored roles |
| `RoleStore.RoleRepository.InsertRoles` | src/Service.Implementation/Init/InitialSetupService.cs:64 | the roles are appended, or DbUpdateException and no change when a key repeats |
| `InitialSetupService.EnumMembers` | src/Service.Implementation/Init/InitialSetupService.cs:25 | the two members, each once, in ascending unsigned value order |
| `InitialSetupService.InitialSetupService.constructor` | src/Service.Implementation/Init/InitialSetupService.cs:21-53 | the loop builds one role per member (id, name, name) and the fixed administrator |
| `InitialSetupService.InitialSetupService.InitialSetup` | src/Service.Implementation/Init/InitialSetupService.cs:55-66 | any stored role: no change; otherwise roles seeded and one new record, active "Default Administrator" with username "admin", whose password "Admin1!" validates and who holds only Administrator, a seeded role; other users and their rows stay |
| `InitialSetupService.AdminRoleSeeded` | src/Service.Implementation/Init/InitialSetupService.cs:44-47 | the administrator's role id is the key of a seeded role |
| `InitialSetupService.SeedRolesShape` | src/Service.Implementation/Init/InitialSetupService.cs:25-34 | one role per enum member with Id = value, Name = Description = member name; distinct keys for distinct values |
| `InitialSetupService.AdminPasswordAccepted` | src/Service.Implementation/Init/InitialSetupService.cs:36-48 | the administrator's password passes the policy |
| `PasswordValidationDescription.ErrorOfDescription` | src/SourceName.Utils/Constants/EnumDescriptionProviders/PasswordValidationDescription.cs:10-19 | a message read back gives an error with that message |
| `PasswordValidationDescription.MessageLengths` | src/SourceName.Utils/Constants/EnumDescriptionProviders/PasswordValidationDescription.cs:12-17 | the six messages have the lengths 35, 54, 56, 67, 30 and 31 |
| `PasswordValidationDescription.DescriptionRoundTrip` | src/SourceName.Utils/Constants/EnumDescriptionProviders/PasswordValidationDescription.cs:12-17 | every error's message reads back to that error |
| `PasswordValidationDescription.DescriptionsDistinct` | src/SourceName.Utils/Constants/EnumDescriptionProviders/PasswordValidationDescription.cs:12-17 | the six messages are pairwise distinct |
| `ErrorStringProvider.PasswordMessagesAgree` | src/SourceName.Utils/Constants/ErrorStringProvider.cs:8-20 | the provider and the extension method agree on every error |
| `ErrorStringProvider.PasswordMessagesDistinct` | src/SourceName.Utils/Constants/ErrorStringProvider.cs:12-17 | the provider's messages are pairwise distinct |
| `ErrorStringProvider.UserMessagesAgree` | src/SourceName.Utils/Constants/ErrorStringProvider.cs:22-29 | EmailExists is "Email Already Exists" in both tables |
| `StringUtils.DynamicNotFoundError` | src/SourceName.Utils/Constants/StringUtils.cs:14-17 | "Could not find " + resource + ".": length + 16, fixed prefix and suffix |
| `StringUtils.DynamicUnsupportedMediaTypeError` | src/SourceName.Utils/Constants/StringUtils.cs:19-22 | the media type followed by " not supported" |
| `StringUtils.NotFoundResource` | src/SourceName.Utils/Constants/StringUtils.cs:16 | recovers a resource of the right length from a message |
| `StringUtils.NotFoundRoundTrip` | src/SourceName.Utils/Constants/StringUtils.cs:16 | NotFoundResource inverts DynamicNotFoundError |
| `StringUtils.NotFoundInjective` | src/SourceName.Utils/Constants/StringUtils.cs:14-17 | different resources give different messages |
| `StringUtils.UnsupportedMediaTypeInjective` | src/SourceName.Utils/Constants/StringUtils.cs:19-22 | different media types give different messages |
| `StringResources.GenericNotFoundError` | src/SourceName.Utils/Constants/StringResources.cs:14-17 | "Could not find " + resource + "." |
| `StringResources.AgreesWithStringUtils` | src/SourceName.Utils/Constants/StringResources.cs:6-17 | the formatter and the four static messages equal those of StringUtils |
| `StringResources.GenericNotFoundInjective` | src/SourceName.Utils/Constants/StringResources.cs:16 | different resources give different messages |
| `ResponseObjects.GenericResponse.constructor` | src/SourceName.Utils/Implementations/ResponseObjects/GenericResponse.cs:15 | ResponseCode and Content stay null |
| `ResponseObjects.GenericResponse.WithError` | src/SourceName.Utils/Implementations/ResponseObjects/GenericResponse.cs:17-21 | only Content is set; ResponseCode stays null |
| `ResponseObjects.GenericResponse.Errors` | src/SourceName.Utils/Implementations/ResponseObjects/GenericResponse.cs:11 | every access yields a new empty list |
| `ResponseObjects.GenericResponse.IsSuccessful` | src/SourceName.Utils/Implementations/ResponseObjects/GenericResponse.cs:12 | always true |
| `ResponseObjects.ErrorIsLost` | src/SourceName.Utils/Implementations/ResponseObjects/GenericResponse.cs:11-21 | a response built with an error still reports success and no errors |
| `ResponseObjects.CheckedResponse.IsSuccessful` | src/SourceName.Utils/Implementations/ResponseObjects/GenericResponse.cs:12 | successful iff the kept error list is empty |
| `ResponseObjects.CheckedResponse.constructor` | src/SourceName.Utils/Implementations/ResponseObjects/GenericResponse.cs:15 | no code, no content, no errors |
| `ResponseObjects.CheckedResponse.WithError` | src/SourceName.Utils/Implementations/ResponseObjects/GenericResponse.cs:17-21 | the content and exactly the one error are kept |
| `ResponseObjects.ErrorIsKept` | src/SourceName.Utils/Implementations/ResponseObjects/GenericResponse.cs:11-21 | with the list kept, a response built with an error is unsuccessful and reports that error |
| `QueryModel.Query.constructor` | src/Data.Model/Query.cs:9-14 | ascending, untracked, no filter or ordering, a new empty include list |
| `QueryModel.StartNumber` | src/Data.Model/Query.cs:26 | the product when it fits in 32 bits, and congruent to it modulo 2^32 always |
| `QueryModel.PagingatedQuery.constructor` | src/Data.Model/Query.cs:23-27 | the base defaults, ResultsPerPage = n and StartNumber = p * n wrapped |
| `QueryModel.PagingatedQuery.FirstPage` | src/Data.Model/Query.cs:23 | the default page: start 0, ten rows |
| `QueryModel.PagingatedQuery.ToBaseQuery` | src/Data.Model/Query.cs:29-40 | a new query with the six base options copied and the include list shared |
| `QueryModel.PagesContiguous` | src/Data.Model/Query.cs:26 | without overflow, the next page starts where this one ends |
| `QueryModel.LargePageWraps` | src/Data.Model/Query.cs:26 | page 65536 of 32768 rows starts at -2^31 |
| `Numbers.IntToString` | Service.Implementation/Users/UserContextService.cs:34 | a sign iff negative, then the decimal digits of the magnitude |
| `Numbers.ParseInt32` | Service.Implementation/Users/UserContextService.cs:34 | int.Parse throws only FormatException or OverflowException; a parsed text holds a digit, and a minus sign when the value is negative |
| `Numbers.ParseFormatRoundTrip` | Service.Implementation/Users/UserContextService.cs:34 | int.Parse of a 32-bit integer's text gives the integer |
| `Numbers.FormatHasNoSeparator` | Service.Implementation/Users/UserContextService.cs:34 | a formatted integer holds no separator character |
| `Numbers.ParseRejectsMalformed` | Service.Implementation/Users/UserContextService.cs:34 | "", "-", " " and "1 2" raise FormatException |
| `Numbers.ParseAcceptsSurroundingWhite` | Service.Implementation/Users/UserContextService.cs:34 | " 7 " parses to 7 |
| `Numbers.ParseOverflows` | Service.Implementation/Users/UserContextService.cs:34 | "2147483648" raises OverflowException |
| `Numbers.ParseSmallest` | Service.Implementation/Users/UserContextService.cs:34 | "-2147483648" parses |
| `Numbers.Split` | Service.Implementation/Users/UserContextService.cs:34 | at least one piece, empty pieces kept |
| `Numbers.SplitShape` | Service.Implementation/Users/UserContextService.cs:34 | one piece per separator plus one, no piece holds the separator |
| `Numbers.JoinSplit` | Service.Implementation/Users/UserContextService.cs:34 | joining the pieces of a split gives the text back |
| `Numbers.SplitAppendPiece` | Service.Implementation/Users/UserContextService.cs:34 | a trailing separator-free piece is the last piece |
| `Numbers.SplitJoin` | Service.Implementation/Users/UserContextService.cs:34 | splitting the join of separator-free pieces gives the pieces |
| `Numbers.SplitSingle` | Service.Implementation/Users/UserContextService.cs:34 | text without the separator is one piece |
| `LegacyUserContextService.ParseSegments` | Service.Implementation/Users/UserContextService.cs:34 | the parsed prefix, in order; no error iff every segment parses; otherwise the first failing segment's exception |
| `LegacyUserContextService.ParseSegmentsStops` | Service.Implementation/Users/UserContextService.cs:34 | after the first failure, later segments change nothing |
| `LegacyUserContextService.UserContextService.constructor` | Service.Implementation/Users/UserContextService.cs:10-20 | no user id and an empty RoleIds list |
| `LegacyUserContextService.UserContextService.SetCurrentUserId` | Service.Implementation/Users/UserContextService.cs:22-27 | blank text clears the id; other text is Guid-parsed, and malformed text throws |
| `LegacyUserContextService.UserContextService.SetUserRoleIds` | Service.Implementation/Users/UserContextService.cs:29-36 | the same list is cleared, then holds the parsed prefix; a bad segment throws after that prefix |
| `LegacyUserContextService.ParseTexts` | Service.Implementation/Users/UserContextService.cs:34 | each id's text parses back to the id |
| `LegacyUserContextService.JoinedTextNotBlank` | Service.Implementation/Users/UserContextService.cs:31-33 | the joined text of a non-empty id list is not blank |
| `LegacyUserContextService.RoleIdsRoundTrip` | Service.Implementation/Users/UserContextService.cs:29-36 | a comma-joined id list is read back exactly, duplicates and order kept |
| `LegacyUserContextService.RoleIdCount` | Service.Implementation/Users/UserContextService.cs:34 | when all segments parse, there are commas + 1 ids |
| `LegacyUserContextService.SplitEmptySegment` | Service.Implementation/Users/UserContextService.cs:34 | "1,,2" splits into "1", "" and "2" |
| `LegacyUserContextService.ParseStopsAtSecond` | Service.Implementation/Users/UserContextService.cs:34 | a failing second segment keeps only the first value |
| `LegacyUserContextService.EmptySegmentRejected` | Service.Implementation/Users/UserContextService.cs:31-34 | "1,,2" keeps [1] and throws FormatException |
| `AdminHandler.ClaimsOfType` | Api/Core/Authorization/Requirements/AdminHandler.cs:13-14 | each claim of that type as often as the claims hold it, and no other claim |
| `AdminHandler.ClaimsOfTypeAppend` | Api/Core/Authorization/Requirements/AdminHandler.cs:13-14 | the selection keeps the claims' order: selecting from a + b gives a's selected claims, then b's |
| `AdminHandler.ContainsParsed` | Api/Core/Authorization/Requirements/AdminHandler.cs:16-19 | the lazy scan throws only int.Parse's FormatException or OverflowException, and answers true only if some segment parses to the id |
| `AdminHandler.HandleRequirement` | Api/Core/Authorization/Requirements/AdminHandler.cs:11-27 | no roles claim: Fail; several: InvalidOperationException; the only exceptions are that one and int.Parse's |
| `AdminHandler.ContainsParsedMeaning` | Api/Core/Authorization/Requirements/AdminHandler.cs:16-19 | the lazy scan finds the id iff it is in the parsed prefix; it throws only if a bad segment comes before any match |
| `AdminHandler.SucceedIff` | Api/Core/Authorization/Requirements/AdminHandler.cs:11-27 | Succeed iff one roles claim whose lazy parse reaches the Administrator value |
| `AdminHandler.NoClaimsOfType` | Api/Core/Authorization/Requirements/AdminHandler.cs:13-14 | without claims of a type, none are selected |
| `AdminHandler.JoinedRoleIdsDecide` | Api/Core/Authorization/Requirements/AdminHandler.cs:16-25 | for a claim written by joining ids, Succeed iff the Administrator value is among them, else Fail |
| `AdminHandler.AdminBeforeMalformed` | Api/Core/Authorization/Requirements/AdminHandler.cs:16-19 | a malformed segment after the administrator id is never parsed |
| `AdminHandler.SeveralRolesClaimsThrow` | Api/Core/Authorization/Requirements/AdminHandler.cs:13-14 | two roles claims make SingleOrDefault throw |
| `LegacyUserPasswordService.CreateHash` | Service.Implementation/Users/UserPasswordService.cs:8-25 | null: ArgumentNullException("password"); blank: ArgumentException("Value cannot be empty or whitespace"); otherwise the salted digest |
| `LegacyUserPasswordService.CreateHashOutcome` | Service.Implementation/Users/UserPasswordService.cs:8-25 | null: ArgumentNullException; blank: the literal ArgumentException; a pair exactly for a non-blank password: a 64-byte digest under the fresh key, which the password validates against |
| `LegacyUserPasswordService.ValidateHash` | Service.Implementation/Users/UserPasswordService.cs:27-57 | the guards in order with their literal messages, then the compare loop, as in the current version |
| `LegacyUserPasswordService.AgreesWithSrcExceptNull` | Service.Implementation/Users/UserPasswordService.cs:10-24 | only a null password is treated differently from the current version |
| `LegacyUserPasswordService.NoCompositionCheck` | Service.Implementation/Users/UserPasswordService.cs:20-24 | "Test" and "test1" fail the policy yet are hashed |
| `LegacyUserPasswordService.LegacyHashRoundTrip` | Service.Implementation/Users/UserPasswordService.cs:20-56 | a password validates against the pair made from it |
| `LegacyUserAuthenticationService.Authenticate` | Api/Core/Authentication/UserAuthenticationService.cs:31-63 | the method with its claim loop returns exactly LegacyAuthentication(...) |
| `LegacyUserAuthenticationService.LegacyUnknownOrInactiveRejected` | Api/Core/Authentication/UserAuthenticationService.cs:33-37 | a missing or inactive user gets null, whatever the password |
| `LegacyUserAuthenticationService.LegacyTokenIffCredentials` | Api/Core/Authentication/UserAuthenticationService.cs:39-58 | a token iff the credentials hold; then Name claim first, Role claims in order, expiry now + 1800 s, ASCII key, HMAC-SHA-256 |
| `LegacyUserStore.RoleIdsAppend` | Data.Implementation/User/UserRepository.cs:53-63 | appending a row adds its role id to the id set |
| `LegacyUserStore.KeepRequested` | Data.Implementation/User/UserRepository.cs:46-51 | the kept rows come from the stored ones with requested ids; their ids are the stored ids that are requested |
| `LegacyUserStore.KeepRequestedDistinct` | Data.Implementation/User/UserRepository.cs:46-51 | removal keeps role ids distinct |
| `LegacyUserStore.DistinctAppend` | Data.Implementation/User/UserRepository.cs:54-63 | adding a row whose role id is not present keeps the role ids distinct |
| `LegacyUserStore.KeepRequestedAll` | Data.Implementation/User/UserRepository.cs:46-51 | when every stored id is requested, nothing is removed |
| `LegacyUserStore.AddMissing` | Data.Implementation/User/UserRepository.cs:53-63 | the rows are extended, added rows point at the user, the ids become stored + requested, distinctness kept |
| `LegacyUserStore.ReconcileMeaning` | Data.Implementation/User/UserRepository.cs:46-64 | after Update the role ids are exactly the requested ones, each once, kept rows first and owned by the user |
| `LegacyUserStore.ReconcileIdempotent` | Data.Implementation/User/UserRepository.cs:46-64 | rows already matching the request are left exactly as they are |
| `LegacyUserStore.AddMissingAddsNothing` | Data.Implementation/User/UserRepository.cs:53-63 | when every requested id is present, nothing is added |
| `LegacyUserStore.ValidAfterReplace` | Data.Model/EntityTypeConfigurations/Users/UserEntityConfiguration.cs:29-30 | replacing a record with one of the same id, a free username and its own distinct rows keeps the unique indexes |
| `LegacyUserStore.IndexOfId` | Data.Implementation/User/UserRepository.cs:18 | the position of the record with that id, or none when no record has it |
| `LegacyUserStore.Where` | Service.Implementation/Users/UserService.cs:75-76 | the records the filter keeps, all of them, none that fail it |
| `LegacyUserStore.SingleOrDefault` | Data.Implementation/User/UserRepository.cs:28 | none for no match, the match for one, InvalidOperationException for more |
| `LegacyUserStore.UsernameMatchesAtMostOne` | Data.Model/EntityTypeConfigurations/Users/UserEntityConfiguration.cs:29-30 | under the unique index at most one record has a username |
| `LegacyUserStore.LegacyUserRepository.constructor` | Data.Implementation/User/UserRepository.cs:14 | an empty table |
| `LegacyUserStore.LegacyUserRepository.Get` | Service.Implementation/Users/UserService.cs:60-76 | all records, or those the filter keeps, in table order |
| `LegacyUserStore.LegacyUserRepository.Insert` | Service.Implementation/Users/UserService.cs:49 | the record under its new key with rows pointing at it, or DbUpdateException for a used key, a taken username, a name longer than its column, a repeated role or a role id that is not a Role key |
| `LegacyUserStore.LegacyUserRepository.Delete` | Data.Implementation/User/UserRepository.cs:16-21 | unknown id: InvalidOperationException; known id: only IsActive becomes false |
| `LegacyUserStore.LegacyUserRepository.GetById` | Data.Implementation/User/UserRepository.cs:23-29 | ignores the id: the sole record, none, or InvalidOperationException for several |
| `LegacyUserStore.LegacyUserRepository.GetByUsernameWithRoles` | Data.Implementation/User/UserRepository.cs:31-37 | the record with that username, active or not, and never an exception under the index |
| `LegacyUserStore.LegacyUserRepository.Update` | Data.Implementation/User/UserRepository.cs:39-72 | unknown id: InvalidOperationException; taken username, a name longer than its column, or an added role id that is not a Role key: DbUpdateException; otherwise names copied and roles reconciled, hash, salt and IsActive kept; reports the role ids whose Role was loaded |
| `LegacyUserStore.LegacyUserRepository.UpdatePassword` | Data.Implementation/User/UserRepository.cs:74-83 | a null or unknown id throws; otherwise only hash and salt change |
| `LegacyUserStore.RemoveUnlisted` | Data.Implementation/User/UserRepository.cs:46-51 | the removal loop leaves exactly KeepRequested |
| `LegacyUserStore.AddListed` | Data.Implementation/User/UserRepository.cs:53-63 | the adding loop produces exactly AddMissing |
| `LegacyUserStore.Owned` | Service.Implementation/Users/UserService.cs:42-47 | the rows, one for one, pointing at the saved record's key |
| `LegacyUserService.ToUser` | Mapping/ServiceMappingProfile.cs:14-15 | the mapper copies id, names, digest, salt and IsActive, leaves Password null, and maps each row to its role id without a Role |
| `LegacyUserService.ToUserWithRoles` | Mapping/ServiceMappingProfile.cs:13-15 | as ToUser, but each role carries the catalog role with its id, present iff the catalog has one |
| `LegacyUserService.ToUserAfterUpdate` | Data.Implementation/User/UserRepository.cs:41-71 | rows loaded before the update map as ToUserWithRoles does, added rows as ToUser does (no Role) |
| `LegacyUserService.AfterUpdateWithoutAdditions` | Data.Implementation/User/UserRepository.cs:41-44 | when nothing was added, the result maps like a read with Include("Roles.Role") |
| `LegacyUserService.ToUserUnloaded` | Mapping/ServiceMappingProfile.cs:14-15 | as ToUser for a record whose Roles were not loaded: no roles |
| `LegacyUserService.FindRole` | Data.Implementation/User/UserRepository.cs:35 | the loaded Role is one from the catalog with that id, present iff the catalog has one |
| `LegacyUserService.StoredEntity` | Service.Implementation/Users/UserService.cs:30-49 | active, names copied, the hash pair, one row per role in order pointing at the new key |
| `LegacyUserService.CreateUser` | Service.Implementation/Users/UserService.cs:26-51 | a null or blank password throws and nothing is stored; otherwise Insert of the new record, with its failure cases, column widths and the role foreign key against the catalog included |
| `LegacyUserService.CreatedPasswordValidates` | Service.Implementation/Users/UserService.cs:28-38 | the created user's password validates against its stored pair |
| `LegacyUserService.DeleteUser` | Service.Implementation/Users/UserService.cs:53-56 | the repository's Delete with the same id |
| `LegacyUserService.NameLeqBothWays` | Service.Implementation/Users/UserService.cs:60-62 | two records are ordered both ways iff they share last and first name |
| `LegacyUserService.NameLeqTotal` | Service.Implementation/Users/UserService.cs:60-62 | any two records are ordered one way or the other |
| `LegacyUserService.NameLeqTransitive` | Service.Implementation/Users/UserService.cs:60-62 | the key order is transitive |
| `LegacyUserService.InsertByNamePermutes` | Service.Implementation/Users/UserService.cs:60-62 | inserting a record adds exactly that record and loses none |
| `LegacyUserService.SortByNamePermutes` | Service.Implementation/Users/UserService.cs:60-62 | the ordered list holds every record exactly as often as the table does |
| `LegacyUserService.InsertByNameSorted` | Service.Implementation/Users/UserService.cs:60-62 | inserting into a sorted list keeps it sorted |
| `LegacyUserService.SortByNameSorted` | Service.Implementation/Users/UserService.cs:60-62 | the result is sorted by last name, then first name |
| `LegacyUserService.InsertByNameStable` | Service.Implementation/Users/UserService.cs:60-62 | an inserted record goes after the records with its name |
| `LegacyUserService.NamedSingle` | Service.Implementation/Users/UserService.cs:60-62 | a single record is kept by the name filter iff it has that name |
| `LegacyUserService.SortByNameStable` | Service.Implementation/Users/UserService.cs:60-62 | records with equal names keep the table order |
| `LegacyUserService.GetAll` | Service.Implementation/Users/UserService.cs:58-65 | every record, in the order SortByName gives, mapped without roles because Get loads none |
| `LegacyUserService.GetById` | Service.Implementation/Users/UserService.cs:67-71 | the repository's answer mapped: none, the sole record with its roles and their catalog Roles, or InvalidOperationException |
| `LegacyUserService.GetByUsername` | Service.Implementation/Users/UserService.cs:73-80 | the user with that username iff one exists, active or not, mapped without roles because Get loads none; never an exception under the index |
| `LegacyUserService.GetForAuthentication` | Service.Implementation/Users/UserService.cs:82-86 | the user with that username with its roles loaded, iff one exists |
| `LegacyUserService.UpdateEntity` | Service.Implementation/Users/UserService.cs:90-95 | the key is the user's id (the empty Guid for null) and the rows carry the requested role ids in order |
| `LegacyUserService.UpdateUser` | Service.Implementation/Users/UserService.cs:88-98 | Update with that record, with the repository's failure cases (column widths and the role foreign key against the catalog included); kept roles carry their catalog Role, added ones none |
| `LegacyUserService.UpdatedRolesAreRequested` | Service.Implementation/Users/UserService.cs:88-98 | after UpdateUser the user holds exactly the requested ids, each once |
| `LegacyRoleStore.LegacyRoleRepository.Get` | Service.Implementation/Init/InitialSetupService.cs:59 | every stored role, which the context then tracks |
| `LegacyRoleStore.LegacyRoleRepository.Insert` | Service.Implementation/Init/InitialSetupService.cs:68 | a tracked key: InvalidOperationException at Add; an untracked stored key: DbUpdateException; either way no change; otherwise appended and tracked |
| `LegacyRoleStore.KeysAppend` | Service.Implementation/Init/InitialSetupService.cs:66-69 | appending a role adds exactly its key to the keys |
| `LegacyInitialSetupService.LegacyInitialSetupService.constructor` | Service.Implementation/Init/InitialSetupService.cs:23-55 | the loops build one role per member and the administrator with the Administrator role |
| `LegacyInitialSetupService.LegacyInitialSetupService.InitialSetup` | Service.Implementation/Init/InitialSetupService.cs:57-72 | any role: no change; otherwise roles inserted until a repeated key makes Add throw InvalidOperationException, then the "Default Administrator" created, unless "admin" or the key is taken, holding only the seeded Administrator role |
| `LegacyInitialSetupService.InsertAll` | Service.Implementation/Init/InitialSetupService.cs:66-69 | all roles stored if their keys are distinct; otherwise the prefix before the first repeated key, and InvalidOperationException from the identity map |
| `LegacyInitialSetupService.SeedingSucceeds` | Service.Implementation/Init/InitialSetupService.cs:27-35 | with distinct enum values the seeded keys are distinct |

## Left out

- Raw byte arrays are sequences. A null byte array, such as a null stored hash, is not modelled.
- The regex character classes are ASCII. .NET's `\d` also matches other Unicode decimal digits, and `char.IsWhiteSpace` is limited to the characters listed in `Common.IsWhiteSpace`.
- HMAC-SHA-512, UTF-8, ASCII and the random key are parameters. `Guid.Parse` and `Guid.ToString` are too. None of their internals is modelled.
- The compare loop's early exit leaks timing. Only its boolean result is modelled.
- Token serialisation (`JwtSecurityTokenHandler.WriteToken`) and the HMAC-SHA-256 signature are not modelled. The token is the descriptor of claims, expiry, key and algorithm.
- EF Core is replaced by in-memory stores. Not modelled:
  - the change tracker's state after a failed `SaveChanges`;
  - the Include machinery;
  - cascades;
  - the current version's role navigation (`UserRole.Role`) beyond what the authentication input carries.
- A null `Roles` collection on a loaded user is not modelled. The collection is a sequence, possibly empty.
- GetAll compares strings ordinally. .NET's default string comparer is culture-sensitive. A null name is not modelled.
- int.Parse is modelled for the invariant culture. Culture-specific signs and digits are not.
- The `Roles` enumeration has exactly the members Administrator and User; a third member is not modelled. Their values are a parameter. When both share one value, seeding fails on the repeated key; which name `ToString` gives that value is not modelled, as each seeded role is named after its own member.
- Username comparison is exact. SQL Server's default collation is case-insensitive, so in the source "Admin" finds, and collides with, "admin". This affects `UserStore.UserRepository.GetByUsernameWithRolesAsync`, `LegacyUserStore.LegacyUserRepository.Insert`, `LegacyUserStore.LegacyUserRepository.GetByUsernameWithRoles`, `LegacyUserStore.ValidTable`, and the "admin is taken" case of both InitialSetups.
- The lookups some services receive as values cannot fail: `existing` in `UserValidationService.ValidateUser`, and `found` in `UserCapabilitiesService.GetUserCapabilities` and in the authentication services. The repository calls they stand for can throw (for example SingleOrDefault over several matches).
- The Role table is passed to the user stores as its keys (`roleKeys`) or its rows (`catalog`). Roles are never deleted in this core, so the user stores do not keep the role foreign key as an invariant; it is checked on each insertion.
- LegacyRoleStore.LegacyRoleRepository.Insert: a role whose save failed stays tracked as Added in the source's context, and a later save would try it again. The model drops it.
- LegacyUserService.ToUserAfterUpdate: an added row whose Role the same context already tracks from an earlier query would be fixed up to it. The model gives added rows no Role.
- GenericResponseFactory and the `*Response` subclasses are not part of this model.
- Async methods and `.Wait()` are modelled as sequential calls. `AggregateException` wrapping is not modelled.
- The current `UserService` methods that only delegate are not modelled: `DeleteUserAsync`, `GetAllPaginatedAsync`, `GetByIdAsync`, `GetByIdWithRolesAsync`, `GetByUsernameAsync`, `GetForAuthenticationAsync` and `UpdateUserAsync`. They pass through to the repository methods modelled here.
- UserService.RolesToAdd: its contract and RolesToAddCounts state which ids it adds and that each is added once, not that they keep the order of first request. The change tracker's fix-up, which puts each added row into the user's Roles collection before the next id is tested, is built into the function rather than modelled as tracker state.
- Token expiry is a plain number of seconds, so the DateTime range is not modelled.
- The root-level `UserRoleEntity` maps its keys as `ApplicationUserId` and `ApplicationRoleId`. The model uses one user key and one role key per row.
- The current repository's `InsertAsync`, and the role repository's `GetRoleCount` and `InsertRoles`, are not shown in the source. They are modelled as the store operations their callers rely on.
- LegacyUserService.GetAll and LegacyUserService.GetByUsername: users come back without roles, because `Get` has no Include and no lazy loading is configured. Rows already tracked by the same context, which fix-up would attach, are not modelled.
- Null names are not modelled. The older User table requires FirstName, LastName and Username, and only their widths are part of the model.
- LegacyUserStore.LegacyUserRepository.Update takes the user's key as written by `UserService.UpdateUser`. AutoMapper's copying of the remaining fields is treated as identity.

## Findings

| source | as written | input that shows it | evidently intended | confidence | as-written member | corrected member |
|---|---|---|---|---|---|---|
| src/SourceName.Utils/Implementations/ResponseObjects/GenericResponse.cs:11-21 | `Errors` is an expression-bodied property that makes a new empty list on each access, so the constructor's `Errors.Add(error)` is lost and `IsSuccessful` is always true | `new GenericResponse("failed", null)`: `IsSuccessful` is true and `Errors` is empty | `Errors` is one list kept by the response, so a response built with an error is unsuccessful and reports it | not executed | `ResponseObjects.ErrorIsLost` | `ResponseObjects.ErrorIsKept` |
