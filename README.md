# driver-api services in Dafny

A model of the rule-bearing core of the driver-api quiz backend: the
services that assemble and score completed quizzes, issue and expire
refresh tokens, keep the user directory consistent, and keep tag names
unique, together with the identity rules of the `Answer` entity.

Each Spring Data repository becomes a `map` field of the service class that
owns it (`UserService.users`, `RefreshTokenService.tokens`,
`CompletedQuizService.quizzes`, `TagService.tags`); generated ids come from a
`nextId` counter, as a database sequence would give them. A service that
calls another receives it as a method parameter. Thrown exceptions become
`Outcome.Err` values naming the key that failed (`NotFound(UserId(7))`,
`Duplicate(Email(e))`, ...), so the order in which the checks run is visible
in the result.

Modules:

- `Outcomes` (outcomes.dfy): `Option`, the `Key` a failure names, `Error` and `Outcome`.
- `Answers` (answers.dfy): the `Answer` entity, a model of the Java references `equals` receives, `Equals` and `HashCode`.
- `Passwords` (passwords.dfy): a stand-in for the BCrypt encoder that derives the same 72-character key as BCrypt: the password and a NUL character, cycled to 72 characters.
- `Accounts` (accounts.dfy): `User`, `RefreshToken`, `UserService` and `RefreshTokenService`. They share a module because each service calls the other.
- `Quizzes` (quizzes.dfy): `Advice`, the `Catalog` of advices and answers, the score, the specification `Assemble` of quiz assembly, and `CompletedQuizService`.
- `Tags` (tags.dfy): `TagService`.
- `Scenarios` (scenarios.dfy): caller-side checks that chain several service calls through their contracts alone.

Where `buildCompletedQuiz` calls `userService.findOne(Long)`, the model calls
`UserService.FindById`. Where `RefreshTokenServiceImpl.create` calls
`userService.findOne(String)`, the model calls `UserService.FindByUsername`.
The `UserService` interface declares neither `findOne`.

The score counts occurrences. For answers A1 (correct), A2 (incorrect) and
A3 (correct), the list [A1, A2, A3, A1] scores 3, not 2 (`Quizzes.ScoreExample`).

## Model

| member | source | states |
|---|---|---|
| `Answers.Equals` | src/main/java/com/simo333/driver/model/Answer.java:33-39 | an Answer equals `o` exactly when `o` is an Answer with the same id; contents, correctness and question play no part; calling it on a distinct Answer whose own id is null is excluded, since that dereferences null |
| `Answers.EqualsReflexive` | src/main/java/com/simo333/driver/model/Answer.java:35 | an Answer equals itself, even when its id is null |
| `Answers.SameIdEqual` | src/main/java/com/simo333/driver/model/Answer.java:33-39 | two distinct Answer objects with the same non-null id are equal whatever their other fields |
| `Answers.EqualsRejects` | src/main/java/com/simo333/driver/model/Answer.java:36-38 | an Answer never equals null, an object of another class, or an Answer with a different id |
| `Answers.EqualsSymmetric` | src/main/java/com/simo333/driver/model/Answer.java:33-39 | where both calls are defined, `a.equals(b) == b.equals(a)` |
| `Answers.HashCodeConsistent` | src/main/java/com/simo333/driver/model/Answer.java:41-44 | every Answer has the same hash code, so equal answers have equal hashes |
| `Passwords.MatchesOwnEncoding` | src/main/java/com/simo333/driver/service/impl/UserServiceImpl.java:93-96 | a raw password matches its own encoding |
| `Passwords.MatchesExactlyOnKey` | src/main/java/com/simo333/driver/service/impl/UserServiceImpl.java:93-96 | a raw password matches another's encoding exactly when the two give the same BCrypt key |
| `Passwords.KeyOfStartsWithPassword` | src/main/java/com/simo333/driver/service/impl/UserServiceImpl.java:93-96 | the key begins with the password's first 72 characters, and a shorter password is followed in it by NUL |
| `Passwords.MatchesOnlyOwnEncoding` | src/main/java/com/simo333/driver/service/impl/UserServiceImpl.java:93-96 | among passwords of at most 72 characters with no NUL character, a raw password matches no other password's encoding |
| `Passwords.KeyDeterminesShortPassword` | src/main/java/com/simo333/driver/service/impl/UserServiceImpl.java:93-96 | without NUL, a password shorter than another of at most 72 characters has a different key |
| `Passwords.LongPasswordsCollide` | src/main/java/com/simo333/driver/service/impl/UserServiceImpl.java:93 | two different passwords sharing their first 72 characters match each other's encoding, so the old-password check accepts either |
| `Passwords.NulPasswordsCollide` | src/main/java/com/simo333/driver/service/impl/UserServiceImpl.java:93 | "a" followed by NUL and "a" differs from "a" yet matches its encoding, because the key ends each password with NUL and repeats it |
| `Accounts.PatchedFields` | src/main/java/com/simo333/driver/service/impl/UserServiceImpl.java:129-144 | an update sets exactly the non-null request fields; id, email and password never change |
| `Accounts.WithoutOwnerSpec` | src/main/java/com/simo333/driver/service/impl/RefreshTokenServiceImpl.java:64-67 | revoking a user's tokens removes every token of that user and keeps every other user's tokens unchanged |
| `Accounts.UserService.GetCurrentUser` | src/main/java/com/simo333/driver/service/impl/UserServiceImpl.java:109-115 | an anonymous caller gets Unauthorized; an authenticated one gets its principal |
| `Accounts.UserService.FindById` | src/main/java/com/simo333/driver/service/impl/UserServiceImpl.java:57-63 | returns the user stored under the id, or NotFound naming that id; reads only |
| `Accounts.UserService.FindByUsername` | src/main/java/com/simo333/driver/service/impl/UserServiceImpl.java:41-47 | succeeds exactly when some user has the username and returns that stored user; otherwise NotFound naming the username |
| `Accounts.UserService.FindByEmail` | src/main/java/com/simo333/driver/service/impl/UserServiceImpl.java:49-55 | succeeds exactly when some user has the email and returns that stored user; otherwise NotFound naming the email |
| `Accounts.UserService.CheckUsernameAvailable` | src/main/java/com/simo333/driver/service/impl/UserServiceImpl.java:117-121 | passes exactly when no stored user has the username; otherwise Duplicate naming it |
| `Accounts.UserService.CheckEmailAvailable` | src/main/java/com/simo333/driver/service/impl/UserServiceImpl.java:123-127 | passes exactly when no stored user has the email; otherwise Duplicate naming it |
| `Accounts.UserService.Save` | src/main/java/com/simo333/driver/service/impl/UserServiceImpl.java:70-78 | a taken username is reported first, then a taken email, and then nothing is stored; otherwise exactly one user is added under a fresh id with its password encoded; usernames and emails stay unique |
| `Accounts.UserService.ApplyUpdate` | src/main/java/com/simo333/driver/service/impl/UserServiceImpl.java:129-144 | a non-null username already in use, the user's own included, gives Duplicate; otherwise the result is the user with the non-null fields applied |
| `Accounts.UserService.Update` | src/main/java/com/simo333/driver/service/impl/UserServiceImpl.java:80-87 | an unknown id gives NotFound before the username is checked; a failure leaves the store unchanged; success replaces only that user with the patched record |
| `Accounts.UserService.ChangeUserPassword` | src/main/java/com/simo333/driver/service/impl/UserServiceImpl.java:89-99 | anonymous gives Unauthorized and a wrong old password gives PasswordMismatch, both leaving the store unchanged; success sets only the principal's password to the encoded new password |
| `Accounts.UserService.Delete` | src/main/java/com/simo333/driver/service/impl/UserServiceImpl.java:101-107 | an unknown id gives NotFound and changes neither users nor tokens; otherwise all of the user's tokens are revoked and only that user is removed |
| `Accounts.RefreshTokenService.FindByToken` | src/main/java/com/simo333/driver/service/impl/RefreshTokenServiceImpl.java:29-38 | returns the stored token whatever its expiry; otherwise NotFound naming the token |
| `Accounts.RefreshTokenService.Create` | src/main/java/com/simo333/driver/service/impl/RefreshTokenServiceImpl.java:40-50 | an unknown username gives NotFound and stores nothing; otherwise exactly one token is added, with the fresh value, owned by the named user, expiring at now plus the configured duration, and earlier tokens are kept |
| `Accounts.RefreshTokenService.VerifyExpiration` | src/main/java/com/simo333/driver/service/impl/RefreshTokenServiceImpl.java:52-61 | valid exactly when expiry is not before now (equality is valid); valid leaves the store unchanged, expired removes that token and nothing else |
| `Accounts.RefreshTokenService.DeleteByUser` | src/main/java/com/simo333/driver/service/impl/RefreshTokenServiceImpl.java:63-67 | the store keeps exactly the tokens of other users; never fails |
| `Quizzes.Catalog.FindAdvice` | src/main/java/com/simo333/driver/service/impl/CompletedQuizServiceImpl.java:71 | returns the advice stored under the id, or NotFound naming it |
| `Quizzes.Catalog.FindAnswer` | src/main/java/com/simo333/driver/service/impl/CompletedQuizServiceImpl.java:73 | returns the answer stored under the id, whose id it carries, or NotFound naming it |
| `Quizzes.Score` | src/main/java/com/simo333/driver/service/impl/CompletedQuizServiceImpl.java:74 | the score is between 0 and the number of given answers |
| `Quizzes.ScoreCountsOccurrences` | src/main/java/com/simo333/driver/service/impl/CompletedQuizServiceImpl.java:74 | the score is the number of positions holding a correct answer, so a repeated correct answer counts once per occurrence |
| `Quizzes.ScoreExample` | src/main/java/com/simo333/driver/service/impl/CompletedQuizServiceImpl.java:72-74 | [A1, A2, A3, A1] with A1 and A3 correct scores 3 |
| `Quizzes.ResolveSucceeds` | src/main/java/com/simo333/driver/service/impl/CompletedQuizServiceImpl.java:72-73 | resolution succeeds exactly when every id is known, and then yields the stored answer for each id, same length, same order, duplicates kept |
| `Quizzes.ResolveReportsFirstMissing` | src/main/java/com/simo333/driver/service/impl/CompletedQuizServiceImpl.java:72-73 | resolution fails with NotFound naming the first unknown id in list order |
| `Quizzes.AssembleChecksUserFirst` | src/main/java/com/simo333/driver/service/impl/CompletedQuizServiceImpl.java:70 | an unknown user is reported before the advice or any answer is looked at |
| `Quizzes.AssembleChecksAdviceSecond` | src/main/java/com/simo333/driver/service/impl/CompletedQuizServiceImpl.java:70-71 | with a known user, an unknown advice is reported before any answer |
| `Quizzes.AssembleReportsFirstMissingAnswer` | src/main/java/com/simo333/driver/service/impl/CompletedQuizServiceImpl.java:70-73 | with a known user and advice, the first unknown answer id is reported |
| `Quizzes.AssembleSucceeds` | src/main/java/com/simo333/driver/service/impl/CompletedQuizServiceImpl.java:69-81 | assembly succeeds exactly when user, advice and every answer exist; the record then holds that user and advice, the answers in request order with duplicates, and a score in [0, number of answers] equal to the count of correct positions |
| `Quizzes.AssembleFailsOnlyNotFound` | src/main/java/com/simo333/driver/service/impl/CompletedQuizServiceImpl.java:69-81 | every failure of assembly is a NotFound |
| `Quizzes.CompletedQuizService.BuildCompletedQuiz` | src/main/java/com/simo333/driver/service/impl/CompletedQuizServiceImpl.java:69-81 | the lookup-and-append loop returns exactly the assembly specification, including which NotFound surfaces |
| `Quizzes.CompletedQuizService.Save` | src/main/java/com/simo333/driver/service/impl/CompletedQuizServiceImpl.java:55-60 | on any NotFound the store is unchanged; on success exactly one record, the assembled one, is added under a fresh id and existing records are untouched |
| `Quizzes.CompletedQuizService.Delete` | src/main/java/com/simo333/driver/service/impl/CompletedQuizServiceImpl.java:62-67 | an unknown id gives NotFound and leaves the store unchanged, as `deleteById` throws `EmptyResultDataAccessException`; otherwise removes the record with that id and no other |
| `Tags.FreshNameKeepsDistinct` | src/main/java/com/simo333/driver/service/impl/TagServiceImpl.java:45-63 | adding or renaming a tag to an unused name keeps tag names pairwise distinct |
| `Tags.OwnNameIsTaken` | src/main/java/com/simo333/driver/service/impl/TagServiceImpl.java:71-76 | a stored tag's own name counts as taken, so renaming a tag to its current name is refused |
| `Tags.TagService.FindById` | src/main/java/com/simo333/driver/service/impl/TagServiceImpl.java:24-30 | returns the tag stored under the id, or NotFound naming it |
| `Tags.TagService.FindByName` | src/main/java/com/simo333/driver/service/impl/TagServiceImpl.java:32-38 | succeeds exactly when some tag has the name and returns that stored tag; otherwise NotFound naming the name |
| `Tags.TagService.CheckTagNameUnique` | src/main/java/com/simo333/driver/service/impl/TagServiceImpl.java:71-76 | passes exactly when no tag has the name; otherwise Duplicate naming it |
| `Tags.TagService.Save` | src/main/java/com/simo333/driver/service/impl/TagServiceImpl.java:45-53 | a name in use gives Duplicate and changes nothing; otherwise exactly one tag with that name is added under a fresh id; names stay distinct |
| `Tags.TagService.Update` | src/main/java/com/simo333/driver/service/impl/TagServiceImpl.java:55-63 | the name check runs before the id lookup, so a taken name gives Duplicate even for an unknown id; an unknown id then gives NotFound; success changes only that tag's name; names stay distinct |
| `Tags.TagService.Delete` | src/main/java/com/simo333/driver/service/impl/TagServiceImpl.java:65-69 | an unknown id gives NotFound and leaves the store unchanged, as `deleteById` throws `EmptyResultDataAccessException`; otherwise removes the tag with that id and no other |
| `Scenarios.ExpiredTokenIsConsumed` | src/main/java/com/simo333/driver/service/impl/RefreshTokenServiceImpl.java:31-57 | after an expired token fails the expiry check, looking it up gives NotFound |
| `Scenarios.LiveTokenStaysFindable` | src/main/java/com/simo333/driver/service/impl/RefreshTokenServiceImpl.java:31-60 | a token that passes the expiry check can still be found, unchanged |
| `Scenarios.CreateTwice` | src/main/java/com/simo333/driver/service/impl/RefreshTokenServiceImpl.java:40-50 | two tokens created for one user are distinct, both stored and owned by the same user |
| `Scenarios.DeletedUserHasNoTokens` | src/main/java/com/simo333/driver/service/impl/UserServiceImpl.java:103-106 | after a user is deleted, no stored token belongs to it |
| `Scenarios.UpdateToOwnUsernameFails` | src/main/java/com/simo333/driver/service/impl/UserServiceImpl.java:130-132 | updating a user to the username it already has is refused as a duplicate and changes nothing |

## Left out

- The read stubs `getQuizzesByUser`, `getQuizzesByAdvice`, `getQuizzesByUserAndAdvice` and `getHighestScoreQuizByUserAndAdvice` return null; they have no behaviour to model.
- `findAll` with pagination and `loadUserByUsername` are pass-throughs to the repository or to `findByUsername`.
- The BCrypt encoder is a foreign library. `Passwords.Encode` is deterministic and has no random salt or cost rounds. It keeps what decides `matches`: a raw password matches a hash exactly when it gives the same key as the hashed password.
- `Passwords.Encode`: truncates at 72 characters, where BCrypt truncates at 72 bytes of the UTF-8 encoding; for a password with a character outside ASCII the two limits fall at different characters, and that case is not modelled.
- `UUID.randomUUID()` becomes the `freshToken` parameter, required not to be in the store. `Instant.now()` becomes the `now` parameter, in whole milliseconds.
- `Accounts.RefreshTokenService.VerifyExpiration`: compares whole milliseconds, while `Instant` compares at nanosecond resolution, so within one millisecond the source can find a token expired that the model finds valid, or the reverse.
- `Accounts.RefreshTokenService.Create`: does not model the `DateTimeException` that `Instant.plusMillis` throws beyond the largest instant, nor the `ArithmeticException` it throws when the sum overflows a `long`; the expiry is unbounded `now + refreshTokenDurationMs`.
- The refresh-token entity's database id is not modelled. Tokens are keyed by their token string, which is unique.
- The security context is not modelled. The principal is an explicit `Option<User>`, with `None` for an anonymous caller.
- `Accounts.UserService.ChangeUserPassword`: requires the principal, when present, to be the stored record. A stale principal, whose save would write back outdated fields, is not modelled.
- `Accounts.UserService.Save`: treats the given user as new and assigns the next id. Saving a user that already has an id, which the repository would merge, is not modelled.
- Entities are values. A setter followed by `repository.save` replaces the stored entry, so aliasing between a managed entity and other references to it is not modelled.
- `Quizzes.CompletedQuizService.Save`: returns the generated id of the stored record, not the entity; the record is `quizzes[id]`.
- The `(int)` cast of the score is not modelled; the count never exceeds the list length.
- `@Transactional` rollback, concurrency, logging and `@Value` injection are framework behaviour. Each model operation checks before it writes, so a failure writes nothing.
- `AdviceService` and `AnswerService` are not part of this model. Their lookups are the maps of `Quizzes.Catalog`. Advice content is not modelled.
- `RoleServiceImpl`, `AnswerController` and `AnswerUpdateRequest` hold no rules beyond lookups and declarative validation. Null request fields that the validation annotations forbid are not modelled.
- A user's roles are a set of role names; the `Role` entity is not modelled.
