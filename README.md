# BooksNHibernateDemo student service, modelled in Dafny

This project models a small ASP.NET student-records service. Its parts:

- **Basic-auth middleware.** It guards every request by checking the `Authorization` header.
- **Request validation.** It validates the `StudentRequest` record before any create or update.
- **Minimal-API endpoints.** They map each handler's `Result<T>` envelope to an HTTP status.
- **Command and query handlers.** Each handler guards, then acts on the repository.
- **Two NHibernate repositories.** They are modelled as an in-memory table keyed by Id, with an identity counter. One is the current variant, with an Email column. The other is the legacy `NHbibernateDemo` variant, which has none.
- **Entity/DTO mappings.** Both variants have their own.

Modules:

| file | module | what it holds |
|---|---|---|
| `wrappers.dfy` | `Wrappers` | `Option` |
| `text.dfy` | `Text` | .NET string operations the service uses: `Length` in UTF-16 code units, `Trim`, `Split`, `StartsWith` with OrdinalIgnoreCase, decimal rendering of an `int` |
| `shared.dfy` | `Shared` | the `Result<T>` envelope with `Success` and `Failure` |
| `domain.dfy`, `legacy_domain.dfy` | `Domain`, `LegacyDomain` | the `Student` entity, the request and response records, and the column lengths of `StudentMap` |
| `mapping.dfy`, `legacy_mapping.dfy` | `Mapping`, `LegacyMapping` | `ToDomain`, `ToResponse`, and the sequence form of `ToResponse` |
| `validation.dfy` | `Validation` | the data annotations of `StudentRequest` |
| `basic_auth.dfy` | `BasicAuth` | `InvokeAsync` as a function from the header to an outcome |
| `repository.dfy`, `legacy_repository.dfy` | `Repository`, `LegacyRepository` | a `StudentRepository` class per variant |
| `messages.dfy` | `Messages` | the mediator's request records, and the messages the handlers build |
| `handlers.dfy` | `Handlers` | the five handlers as methods over the current repository, and the `FusionCache` slot |
| `endpoint.dfy` | `Endpoint` | the five route handlers of `StudentEndpoint` |

Modelling choices:

- **Storage failures.** A failing session or transaction is an argument `fail` of each repository method. The unit of work then changes nothing, and the method answers false, absent or empty.
- **Call log.** Each repository object keeps a ghost log `calls` of the operations invoked. The handlers' contracts use it to state which repository calls were made, in what order, and with what arguments.
- **Handler exceptions.** The repository catches the failures of its own queries. Opening a session, beginning a transaction, and a rollback all happen outside its `try`, so they can throw out of it; the cache can throw too. The handlers' `catch` blocks are modelled through an argument `raised`: the message of an exception raised by the handler's first awaited call before that call took effect.
- **Mediator.** The endpoints receive the mediator as a function `send` from request record to `Result`. They return the HTTP result together with the records they sent.
- **Behaviour of the code worth noting.**
  - Neither variant's `AddStudentAsync` calls `RollbackAsync` when the save fails. Both rely on the transaction being disposed. Both are modelled as leaving the table unchanged on failure.
  - `Result<T>.Failure` accepts any message. The handlers never pass an empty one, but the envelope does not enforce it.
  - `MinLength` and `MaxLength` count UTF-16 code units. A character outside the Basic Multilingual Plane counts twice.

## Model

| member | source | states |
|---|---|---|
| Text.Utf16Length | src/NHibernateDemo.Core/Domains/DTOs/Requests/StudentRequest.cs:8-9 | String.Length: one code unit for a character of the Basic Multilingual Plane and two for any other; at least one and at most two per character, exactly one each when no character lies outside that plane |
| Text.Utf16LengthAppend | src/NHibernateDemo.Core/Domains/DTOs/Requests/StudentRequest.cs:8-9 | the length of a concatenation is the sum of the lengths, so with the one-character values every count is fixed |
| Text.SurrogatePairCountsTwice | src/NHibernateDemo.Core/Domains/DTOs/Requests/StudentRequest.cs:8-9 | one emoji is one character but two code units; "a" followed by an emoji is three |
| Text.TrimStart | src/NHibernateDemo.API/Middleware/BasicAuthMiddleware.cs:36 | the result is a suffix of the input; everything removed is white space; the result is empty or starts with a non-white-space character |
| Text.TrimEnd | src/NHibernateDemo.API/Middleware/BasicAuthMiddleware.cs:36 | the result is a prefix of the input; everything removed is white space; the result is empty or ends with a non-white-space character |
| Text.Trim | src/NHibernateDemo.API/Middleware/BasicAuthMiddleware.cs:36 | String.Trim: the result is a slice of the input with only white space before and after it; both its ends are non-white-space; empty exactly when the input is all white space |
| Text.TrimIsSlice | src/NHibernateDemo.API/Middleware/BasicAuthMiddleware.cs:36 | trimming the start and then the end leaves a slice surrounded by white space only |
| Text.TrimUnpadded | src/NHibernateDemo.API/Middleware/BasicAuthMiddleware.cs:36 | trimming a text without surrounding white space returns it unchanged |
| Text.TrimIdempotent | src/NHibernateDemo.API/Middleware/BasicAuthMiddleware.cs:36 | trimming twice gives the same as trimming once |
| Text.StartsWithIgnoreCase | src/NHibernateDemo.API/Middleware/BasicAuthMiddleware.cs:28 | StartsWith with OrdinalIgnoreCase: an exact prefix always matches; a match needs the text to be at least as long as the prefix |
| Text.StartsWithIgnoresCase | src/NHibernateDemo.API/Middleware/BasicAuthMiddleware.cs:28 | texts and prefixes that differ only in the case of ASCII letters match alike |
| Text.Split | src/NHibernateDemo.API/Middleware/BasicAuthMiddleware.cs:42 | String.Split(':'): one more part than there are separators; no part contains the separator; joining the parts with the separator gives back the input |
| Text.JoinPair | src/NHibernateDemo.API/Middleware/BasicAuthMiddleware.cs:42 | joining two parts is `a + ":" + b` |
| Text.CountAppend | src/NHibernateDemo.API/Middleware/BasicAuthMiddleware.cs:42-44 | the separator count of a concatenation is the sum of the counts |
| Text.CountPositive | src/NHibernateDemo.API/Middleware/BasicAuthMiddleware.cs:42-44 | a text containing the separator counts it at least once |
| Text.SplitWithoutSeparator | src/NHibernateDemo.API/Middleware/BasicAuthMiddleware.cs:42 | a text without the separator splits into itself alone |
| Text.SplitPair | src/NHibernateDemo.API/Middleware/BasicAuthMiddleware.cs:42-53 | `user:pass`, with no ':' in either, splits into exactly `[user, pass]` |
| Text.SplitManyParts | src/NHibernateDemo.API/Middleware/BasicAuthMiddleware.cs:42-44 | a ':' in the part after the first separator gives at least three parts |
| Text.IntToString | src/NHibernateDemo.Application/Queries/Handlers/GetStudentByIdQueryHandler.cs:26 | an interpolated Id is digits without a leading zero ("0" only for 0) when non-negative, and '-' followed by such digits when negative |
| Text.DigitChar | src/NHibernateDemo.Application/Queries/Handlers/GetStudentByIdQueryHandler.cs:26 | a digit value below 10 renders as a character '0'..'9' |
| Text.NatToString | src/NHibernateDemo.Application/Queries/Handlers/GetStudentByIdQueryHandler.cs:26 | the decimal rendering of an Id is non-empty, all digits, and starts with '0' only for 0 |
| Text.ParseNatToString | src/NHibernateDemo.Application/Queries/Handlers/GetStudentByIdQueryHandler.cs:26 | reading the rendered digits back gives the number |
| Text.NatToStringInjective | src/NHibernateDemo.Application/Queries/Handlers/GetStudentByIdQueryHandler.cs:26 | distinct naturals render as distinct digit strings |
| Text.SignOfRendering | src/NHibernateDemo.Application/Queries/Handlers/GetStudentByIdQueryHandler.cs:26 | a rendered int starts with '-' exactly when it is negative |
| Text.IntToStringInjective | src/NHibernateDemo.Application/Queries/Handlers/GetStudentByIdQueryHandler.cs:26 | distinct ints render differently |
| BasicAuth.CredentialText | src/NHibernateDemo.API/Middleware/BasicAuthMiddleware.cs:36 | the credential text is Trim of the header after its first five characters: no white space at its ends, empty exactly when that rest is all white space |
| BasicAuth.Authenticate | src/NHibernateDemo.API/Middleware/BasicAuthMiddleware.cs:24-91 | an empty header, or one not starting with "Basic" in any letter case (see SchemeInAnyCase), gets 401; an undecodable credential text gets 400; next is invoked only when the decoded text is exactly the configured `username:password`; a ':' in the configured username or password means next is never invoked; once next is invoked, the outcome is forwarded when it completes, 400 when it throws ArgumentException or FormatException, and 500 for any other exception; every response the middleware sends itself is 400 or 401. WrongCredentialsUnauthorized and NoSeparatorIsBadRequest pin the remaining two rejections |
| BasicAuth.SchemeInAnyCase | src/NHibernateDemo.API/Middleware/BasicAuthMiddleware.cs:28 | "basic", "BASIC" and "Basic" all match the scheme; "Bearer" and a header shorter than the scheme do not |
| BasicAuth.NextInvokedIff | src/NHibernateDemo.API/Middleware/BasicAuthMiddleware.cs:28-66 | for configured credentials without ':', next is invoked if and only if the header has the Basic scheme and its credential text decodes to `username:password` |
| BasicAuth.WrongCredentialsUnauthorized | src/NHibernateDemo.API/Middleware/BasicAuthMiddleware.cs:52-62 | a decoded `user:pass` with one ':' whose user or password differs from the configured one gets 401 |
| BasicAuth.NoSeparatorIsBadRequest | src/NHibernateDemo.API/Middleware/BasicAuthMiddleware.cs:42-49 | a decoded text without ':' is one part and gets 400 |
| BasicAuth.ColonInPasswordIsBadRequest | src/NHibernateDemo.API/Middleware/BasicAuthMiddleware.cs:42-49 | decoded credentials whose password holds ':' are answered 400, unlike section 2 of RFC 7617, whatever is configured |
| BasicAuth.OnlyCredentialTextMatters | src/NHibernateDemo.API/Middleware/BasicAuthMiddleware.cs:36 | two Basic headers with the same trimmed text after the first five characters are decided alike, so no space after "Basic" is required |
| BasicAuth.EmptyConfigurationAcceptsBareColon | src/NHibernateDemo.API/Middleware/BasicAuthMiddleware.cs:52-66 | with empty configured credentials, a header decoding to ":" is let through |
| Validation.Errors | src/NHibernateDemo.API/Endpoints/StudentEndpoint.cs:160-161 | the keys of the error dictionary: each member is reported exactly when one of its own rules fails, judged on its own field alone, and every failing member is reported |
| Validation.IsValid | src/NHibernateDemo.Core/Domains/DTOs/Requests/StudentRequest.cs:5-23 | an accepted request has Name and Course of 2..100 UTF-16 code units that are not all white space, a non-blank Email the format check accepts, and a Gender that is exactly Male, Female or Other |
| Validation.RulesSuffice | src/NHibernateDemo.Core/Domains/DTOs/Requests/StudentRequest.cs:5-23 | the converse: a request meeting the four rules is accepted |
| Validation.AcceptedFitsColumns | src/NHibernateDemo.Infrastructure/Mapping/StudentMap.cs:17-35 | an accepted Name and Course fit their 100-character columns, and Gender fits its 6-character column |
| Validation.EmailLengthUnchecked | src/NHibernateDemo.Core/Domains/DTOs/Requests/StudentRequest.cs:12-14 | an Email longer than its 100-character column is accepted whenever the format check accepts it |
| Validation.RejectedExamples | src/NHibernateDemo.Core/Domains/DTOs/Requests/StudentRequest.cs:7-22 | a one-character Name is rejected, and ("0","x","y","z") fails on Name, Course and Gender |
| Validation.SurrogatePairNameAccepted | src/NHibernateDemo.Core/Domains/DTOs/Requests/StudentRequest.cs:7-10 | a Name of one emoji already meets the minimum length of two, because lengths count code units |
| Validation.GenderCaseSensitive | src/NHibernateDemo.Core/Domains/DTOs/Requests/StudentRequest.cs:21-22 | "female" is not an allowed Gender |
| Mapping.ToDomain | src/NHibernateDemo.Core/Domains/Mappings/MappingExtensions.cs:9-10 | the entity has Id 0 and the request's Name, Email, Course and Gender |
| Mapping.ToResponse | src/NHibernateDemo.Core/Domains/Mappings/MappingExtensions.cs:12-20 | the response has all five fields of the entity |
| Mapping.ToResponses | src/NHibernateDemo.Core/Domains/Mappings/MappingExtensions.cs:22-33 | the sequence form keeps length and order and agrees elementwise with the single form |
| Mapping.ResponseOfRequest | src/NHibernateDemo.Core/Domains/Mappings/MappingExtensions.cs:9-20 | ToResponse(ToDomain(r)) has Id 0 and the request's Name, Email, Course and Gender |
| Mapping.MappingsLossless | src/NHibernateDemo.Core/Domains/Mappings/MappingExtensions.cs:9-20 | ToDomain and ToResponse are injective: every field is copied |
| Mapping.ToResponsesAppend | src/NHibernateDemo.Core/Domains/Mappings/MappingExtensions.cs:22-33 | the sequence form distributes over concatenation |
| LegacyMapping.ToDomain | src/NHbibernateDemo.Core/Domains/Mappings/MappingExtensions.cs:9-10 | the entity has Id 0 and the request's Name, Course and Gender |
| LegacyMapping.ToResponse | src/NHbibernateDemo.Core/Domains/Mappings/MappingExtensions.cs:12-19 | the response has the entity's Id, Name, Course and Gender |
| LegacyMapping.ToResponses | src/NHbibernateDemo.Core/Domains/Mappings/MappingExtensions.cs:21-31 | as in the current variant, with four fields |
| LegacyMapping.ResponseOfRequest | src/NHbibernateDemo.Core/Domains/Mappings/MappingExtensions.cs:9-19 | ToResponse(ToDomain(r)) has Id 0 and the request's Name, Course and Gender |
| LegacyMapping.MappingsLossless | src/NHbibernateDemo.Core/Domains/Mappings/MappingExtensions.cs:9-19 | ToDomain and ToResponse are injective |
| Repository.ApplyUpdate | src/NHibernateDemo.Infrastructure/Repositories/StudentRepository.cs:123-125 | an update takes Name, Course and Gender from the new values, and keeps the stored Id and Email |
| Repository.ApplyUpdateIdempotent | src/NHibernateDemo.Infrastructure/Repositories/StudentRepository.cs:123-125 | repeating an update changes nothing more |
| Repository.StudentRepository.constructor | src/NHibernateDemo.Infrastructure/Mapping/StudentMap.cs:12-15 | an empty table whose identity starts at 1 |
| Repository.StudentRepository.AddStudent | src/NHibernateDemo.Infrastructure/Repositories/StudentRepository.cs:20-40 | on success, returns true and stores the student under a fresh Id that was not in the table; on failure, returns false and changes nothing |
| Repository.StudentRepository.GetStudent | src/NHibernateDemo.Infrastructure/Repositories/StudentRepository.cs:42-62 | returns the row stored under the Id, or absent when there is none or on a failure; the table is unchanged |
| Repository.StudentRepository.GetStudentsList | src/NHibernateDemo.Infrastructure/Repositories/StudentRepository.cs:64-81 | returns every stored row exactly once and nothing else, or empty on a failure |
| Repository.StudentRepository.RemoveStudent | src/NHibernateDemo.Infrastructure/Repositories/StudentRepository.cs:83-108 | returns true exactly when the Id was present and there is no failure; then deletes exactly that row and keeps every other; otherwise changes nothing |
| Repository.StudentRepository.UpdateStudent | src/NHibernateDemo.Infrastructure/Repositories/StudentRepository.cs:110-139 | returns true exactly when the Id was present and there is no failure; then only that row changes, by ApplyUpdate, so Email is kept; otherwise changes nothing |
| LegacyRepository.ApplyUpdate | src/NHbibernateDemo.Infrastructure/Repositories/StudentRepository.cs:97-99 | an update replaces every field except the Id |
| LegacyRepository.StudentRepository.constructor | src/NHbibernateDemo.Infrastructure/Mapping/StudentMap.cs:1-30 | an empty table whose identity starts at 1 |
| LegacyRepository.StudentRepository.AddStudent | src/NHbibernateDemo.Infrastructure/Repositories/StudentRepository.cs:17-33 | on success, returns true and stores the student under a fresh Id; on failure, returns false and changes nothing |
| LegacyRepository.StudentRepository.GetStudent | src/NHbibernateDemo.Infrastructure/Repositories/StudentRepository.cs:35-47 | the stored row, or absent when there is none or on a failure |
| LegacyRepository.StudentRepository.GetStudentsList | src/NHbibernateDemo.Infrastructure/Repositories/StudentRepository.cs:49-61 | every stored row exactly once, or empty on a failure |
| LegacyRepository.StudentRepository.RemoveStudent | src/NHbibernateDemo.Infrastructure/Repositories/StudentRepository.cs:63-84 | true exactly when the Id was present and there is no failure; then deletes exactly that row; otherwise changes nothing |
| LegacyRepository.StudentRepository.UpdateStudent | src/NHbibernateDemo.Infrastructure/Repositories/StudentRepository.cs:86-111 | true exactly when the Id was present and there is no failure; then that row holds the new values under its Id; otherwise changes nothing |
| Messages.NotFoundMessage | src/NHibernateDemo.Application/Queries/Handlers/GetStudentByIdQueryHandler.cs:26 | the message is "Student with Id ", the rendered Id, then " not found!" |
| Messages.NotFoundMessageExample | src/NHibernateDemo.Application/Queries/Handlers/GetStudentByIdQueryHandler.cs:25-26 | the message for Id 2 is exactly "Student with Id 2 not found!" |
| Messages.NotFoundMessageNamesId | src/NHibernateDemo.Application/Queries/Handlers/GetStudentByIdQueryHandler.cs:25-26 | distinct Ids give distinct not-found messages |
| Handlers.CacheKey | src/NHibernateDemo.Application/Queries/Handlers/GetStudentsQueryHandler.cs:27 | every list query uses the same cache key, "students:GetStudentsQuery { }", because the query record has no fields |
| Handlers.Cache.constructor | src/NHibernateDemo.Application/Queries/Handlers/GetStudentsQueryHandler.cs:16-20 | the cache starts empty |
| Handlers.GetStudentById | src/NHibernateDemo.Application/Queries/Handlers/GetStudentByIdQueryHandler.cs:19-36 | exactly one read with the request's Id; a missing row gives Failure("Student with Id {id} not found!"); a present row gives Success with its five fields; an exception gives Failure with the fetch prefix; the table is unchanged |
| Handlers.GetStudents | src/NHibernateDemo.Application/Queries/Handlers/GetStudentsQueryHandler.cs:22-40 | on a hit, the cached list and no repository call; on a miss, one list call whose answer (empty on a failure) is cached under the shared key; without an exception the result is always Success of the mapped list; an exception gives Failure with the list prefix |
| Handlers.CreateStudent | src/NHibernateDemo.Application/Commands/Handlers/CreateStudendCommandHandler.cs:18-32 | exactly one insert of ToDomain(request), with no existence check; Success carrying the repository's answer, so IsSuccess holds even when nothing was stored; an exception gives Failure with the insert prefix |
| Handlers.UpdateStudent | src/NHibernateDemo.Application/Commands/Handlers/UpdateStudentCommandHandler.cs:18-36 | one read first; a missing row gives the not-found Failure and no update call; otherwise exactly one update with the request's Id and ToDomain(request), and Success carrying its answer; an exception gives Failure with the update prefix |
| Handlers.RemoveStudent | src/NHibernateDemo.Application/Commands/Handlers/RemoveStudentCommandHandler.cs:17-33 | one read first; a missing row gives the not-found Failure and no removal call; otherwise exactly one removal with the fetched student's Id, and Success carrying its answer; after Success(true) the Id is gone from the table |
| Handlers.CreateThenGet | src/NHibernateDemo.Application/Commands/Handlers/CreateStudendCommandHandler.cs:22-25 | a created student can then be read under Id 1 with its four fields |
| Handlers.UpdateKeepsEmail | src/NHibernateDemo.Application/Commands/Handlers/UpdateStudentCommandHandler.cs:26-30 | after an update with a new Email, a read shows the new Course and the original Email |
| Handlers.RemoveThenGet | src/NHibernateDemo.Application/Commands/Handlers/RemoveStudentCommandHandler.cs:21-27 | after a successful removal, a read of the same Id gives the not-found Failure |
| Endpoint.CommandResponse | src/NHibernateDemo.API/Endpoints/StudentEndpoint.cs:165-167 | 200 exactly when IsSuccess, else 400, with the Result as body |
| Endpoint.GetStudentsList | src/NHibernateDemo.API/Endpoints/StudentEndpoint.cs:70-77 | sends one GetStudentsQuery; 200 if and only if Data is present and non-empty, else 204 |
| Endpoint.GetStudent | src/NHibernateDemo.API/Endpoints/StudentEndpoint.cs:112-119 | sends one query with the path Id; 200 if and only if Data is present, whatever IsSuccess says, else 404 |
| Endpoint.AddStudent | src/NHibernateDemo.API/Endpoints/StudentEndpoint.cs:158-168 | an invalid request gives a validation problem listing the failing members and sends nothing; a valid one sends exactly one CreateStudentCommand carrying it, then 200 if and only if IsSuccess |
| Endpoint.UpdateStudent | src/NHibernateDemo.API/Endpoints/StudentEndpoint.cs:199-209 | as AddStudent, with one UpdateStudentCommand carrying the path Id and the request |
| Endpoint.RemoveStudent | src/NHibernateDemo.API/Endpoints/StudentEndpoint.cs:238-245 | no validation; always exactly one RemoveStudentCommand with the path Id; 200 if and only if IsSuccess, else 400 |
| Endpoint.NothingDoneIsStillOk | src/NHibernateDemo.API/Endpoints/StudentEndpoint.cs:165-167 | a command answered Success(false) still yields 200 on add, update and remove |
| Endpoint.NotFoundStatuses | src/NHibernateDemo.API/Endpoints/StudentEndpoint.cs:116-118 | the handlers' not-found Failure is a 404 on get, and a 400 on update and remove |
| Endpoint.GetOkOnlyOnSuccess | src/NHibernateDemo.API/Endpoints/StudentEndpoint.cs:116-118 | when failures carry no Data, a 200 on get always reports a success |
| Endpoint.EmptyOrFailedListIsNoContent | src/NHibernateDemo.API/Endpoints/StudentEndpoint.cs:74-76 | an empty listing and a failed listing both answer 204 |
| Endpoint.RemoveRoute | src/NHibernateDemo.API/Endpoints/StudentEndpoint.cs:238-245 | DELETE through the remove handler: a 400 leaves the table unchanged, and a 200 carrying true means the row was there and is now gone |

## Left out

- Logging, `async`/`Task`, and NHibernate sessions and transactions are not modelled. A unit of work either commits entirely or changes nothing.
- Base64 and UTF-8 decoding (`Convert.FromBase64String`, `Encoding.UTF8.GetString`) are library calls. They are an abstract partial function `decode`. An `ArgumentException` raised inside the try block before `next` runs is not modelled separately from a decoding failure.
- The response body texts the middleware writes are not modelled, and neither are multi-valued `Authorization` headers.
- The `EmailAddress` format check is library code. It is an abstract predicate `isEmail`. The validation error messages are not modelled; only the set of failing members is.
- FusionCache is an untimed map. Its 1-minute expiry, and races between concurrent requests, are not modelled.
- The mediator (NetDevPack.SimpleMediator) is not modelled: endpoints receive `send`, and handlers are called directly. Routing, OpenAPI, dependency injection and startup wiring are left out too.
- Text.StartsWithIgnoreCase: OrdinalIgnoreCase is modelled as ASCII case folding only; letters outside ASCII are compared exactly.
- Handler exceptions come in through `raised` only. The repository methods never throw in the model.
- Repository.StudentRepository.AddStudent/UpdateStudent/RemoveStudent: in the source, a failure to open the session or begin the transaction, or a failing rollback, throws out of the method. Such failures reach the model only as the handler's `raised`, which gives the same Failure and leaves the table unchanged. The same holds for the legacy variant.
- Text.IntToString: an interpolated Id uses the current culture. The model writes a negative Id with '-', which a culture with another negative sign would not.
- The legacy variant's handlers and endpoints are not part of this model. Its `StudentRequest` is not part of this model either. Its fields are taken from the legacy mapping.
- Repository.StudentRepository.GetStudentsList: returns rows in ascending Id order. The source leaves the order to the database.
- Repository.StudentRepository.AddStudent: does not model a failed insert using up an identity value. Ids still grow monotonically.
- Integers are unbounded. The 32-bit identity column overflowing is not modelled.
- JSON `null` for a request field is not modelled. The four request fields are always strings.
