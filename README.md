# Student record service, modelled in Dafny

This project models the record service of a small Spring application that
offers create, read, update and delete over `Student` records
(`StudentService`). The service looks records up in a keyed store, answers
with a status (OK, CREATED or NOT_FOUND) and a body, and reports a missing
record with an `ErrorResponse` that holds a code, a message naming the id
and a random reference token.

Layout, one module per file:

- `wrappers.dfy` (`Wrappers`): `Option`, standing for `Optional` and for nullable references.
- `student.dfy` (`Students`): the `Student` entity, the `StudentDto` payload, the mapper's field copy (`ToStudent`) and the effect of the update setters (`Overwrite`).
- `decimal.dfy` (`Decimal`): how Java renders a `Long` when it is concatenated to a string, and the parser that reads it back.
- `error_response.dfy` (`Errors`): `ErrorResponse`, the not-found code and message, and the shape of a `UUID.randomUUID()` token.
- `outcome.dfy` (`Outcomes`): the status and body pair every operation returns.
- `repository.dfy` (`Repository`): the store as a class over `map<int, Student>` with `FindById`, `FindAll`, `Save` and `DeleteById`.
- `service.dfy` (`Service`): the service as a class holding its injected store and mapper. `GetStudent` and `GetStudents` are functions of the store's state. `DeleteStudentById`, `CreateStudent` and `UpdateStudent` are methods that change the store.
- `divergences.dfy` (`Divergences`): a client that replays the unit tests' scenario. Its postcondition records where the code and the tests disagree.

Inputs that the Java code takes from the environment are parameters: the
date `LocalDate.now()` returns is `today`, and the token
`UUID.randomUUID().toString()` returns is `referenceId`. The only thing
required of `referenceId` is that it has the canonical form of a version-4
UUID. `Student.java` is not part of this model. Its fields are taken from
the setters and builders the other files call: `id`, `firstName`,
`lastName`, `email` and `createdDate`.

## Model

| member | source | states |
|---|---|---|
| `Students.ToStudent` | src/main/java/com/demo/student/service/StudentService.java:47 | the mapped entity carries the payload's firstName, lastName and email, has no date yet, and carries the payload's id only if the injected mapper copies ids |
| `Students.Overwrite` | src/main/java/com/demo/student/service/StudentService.java:58-61 | the four setters overwrite the three text fields with the payload's values unconditionally, null included, stamp today's date and keep the id |
| `Students.OverwriteKeepsOnlyId` | src/main/java/com/demo/student/service/StudentService.java:58-61 | two records give the same updated record exactly when they have the same id: no earlier field value survives an update |
| `Decimal.LongToString` | src/main/java/com/demo/student/service/StudentService.java:31 | the id's text is never empty, starts with a minus sign exactly when the id is negative, otherwise with a digit, and has the canonical form: digits with no leading zero (zero itself is `0`), and no `-0` |
| `Decimal.LongRoundTrip` | src/main/java/com/demo/student/service/StudentService.java:31 | parsing the id's text gives the id back |
| `Decimal.CanonicalLongRoundTrip` | src/main/java/com/demo/student/service/StudentService.java:31 | every text in the canonical form parses to an id whose rendering is that same text, so the rendering is the only canonical way to write an id |
| `Decimal.LongToStringInjective` | src/main/java/com/demo/student/service/StudentService.java:31 | distinct ids have distinct texts |
| `Errors.NotFoundMessage` | src/main/java/com/demo/student/service/StudentService.java:31 | the message is the prefix `Student does not exist with id:` followed by the id's text in canonical form, which parses back to the requested id |
| `Errors.NotFoundMessageIsCanonical` | src/main/java/com/demo/student/service/StudentService.java:70 | any canonical text that parses to the id, appended to the prefix, is the message itself; a zero-padded or otherwise different text never is |
| `Errors.NotFoundError` | src/main/java/com/demo/student/service/StudentService.java:29-33 | the error body has code `STUDENT_NOT_FOUND`, the not-found message for the id, and the generated token, which is 36 characters long and so not empty |
| `Errors.NotFoundMessageInjective` | src/main/java/com/demo/student/service/StudentService.java:70 | error messages for different ids differ, so a message identifies the id it reports |
| `Errors.NotFoundMessageDiffersFromConstant` | src/main/java/com/demo/student/constants/Constants.java:8 | the message the service builds is never the unused constant's prefix followed by the id: the code has no space after the colon |
| `Repository.Listing` | src/main/java/com/demo/student/service/StudentService.java:38 | the listing of a store filed by id has one entry per stored id, every entry is the record stored under its id, every stored record appears, and ids strictly increase along the list |
| `Repository.StudentRepository.FindById` | src/main/java/com/demo/student/service/StudentService.java:25 | the lookup finds a record exactly when the id is stored, and then returns that record, whose id is the requested one |
| `Repository.StudentRepository.FindAll` | src/main/java/com/demo/student/service/StudentService.java:38 | `findAll` returns as many records as are stored, each a stored record, and misses none |
| `Repository.StudentRepository.Save` | src/main/java/com/demo/student/service/StudentService.java:52 | a record whose id is stored replaces that entry; any other record goes under a fresh id; the saved record is the input with that id; nothing else in the store changes; the save count goes up by one |
| `Repository.StudentRepository.DeleteById` | src/main/java/com/demo/student/service/StudentService.java:42 | the entry for the id is removed if present and every other entry is kept; a missing id changes nothing |
| `Service.StudentService.GetStudent` | src/main/java/com/demo/student/service/StudentService.java:24-34 | OK exactly when the id is stored, with that record as body; otherwise NOT_FOUND with the body `NotFoundError` builds: code `STUDENT_NOT_FOUND`, message `Student does not exist with id:` followed by the id, and the call's token; the store is only read |
| `Service.StudentService.GetStudents` | src/main/java/com/demo/student/service/StudentService.java:37-39 | always OK with a list as long as the store, made of the stored records and missing none; an empty store gives an empty list; the store is only read |
| `Service.StudentService.DeleteStudentById` | src/main/java/com/demo/student/service/StudentService.java:41-44 | always OK with the id as body, whether or not it was stored; afterwards the id is absent and every other entry is unchanged; nothing is saved |
| `Service.StudentService.CreateStudent` | src/main/java/com/demo/student/service/StudentService.java:46-53 | CREATED with the saved record, which carries the payload's three text fields, today's date and an assigned id; the store gains or replaces exactly that entry; the id is fresh unless the mapper copied a stored id, in which case the record keeps that id and replaces that entry only; `save` runs exactly once |
| `Service.StudentService.UpdateStudent` | src/main/java/com/demo/student/service/StudentService.java:55-74 | for a stored id: CREATED with the record overwritten by `Overwrite`, stored under the same id, saved exactly once; for a missing id: NOT_FOUND with the same error body as `GetStudent`, no save and the store unchanged; in both cases the key set and all other entries are unchanged |
| `Divergences.ReplayServiceTests` | src/test/java/com/demo/student/service/StudentServiceTest.java:47-118 | replaying create, get, update, delete twice and get on the created id: update answers CREATED with the record under that id, the second delete answers OK with that id, the final get answers NOT_FOUND with the standard error body for that id, and its message differs from the spaced text the tests expect for that id |

## Divergences between the code and its tests

The model follows the code. The unit tests in
`src/test/java/com/demo/student/service/StudentServiceTest.java` expect
different behaviour in three places. `Divergences.ReplayServiceTests`
proves the code's side of each one.

- Update status: on success the code answers CREATED (`StudentService.java:63`). The test expects OK (`StudentServiceTest.java:115`). `UpdateStudent` states CREATED.
- Delete of a missing id: the code never looks the record up. It calls `deleteById` and answers OK with the id (`StudentService.java:41-44`), given a store that ignores a missing id (see "Left out"). The tests expect a lookup, then `delete(entity)`, and NOT_FOUND with an error body for a missing id (`StudentServiceTest.java:81`, `:84-95`). `DeleteStudentById` states OK for every id.
- Message spacing: the code writes `"Student does not exist with id:" + id` with no space (`StudentService.java:31`, `:70`). The tests expect `Student does not exist with id: 1` (`StudentServiceTest.java:54`, `:92`), as does the unused constant at `Constants.java:8`. `Errors.NotFoundMessageDiffersFromConstant` shows that the two never coincide.

## Left out

- Repository.StudentRepository.DeleteById: a missing id is a no-op, which is how Spring Data JPA 3.x treats it. Before 3.0, `deleteById` throws `EmptyResultDataAccessException` for a missing id, and `deleteStudentById` would then throw instead of answering OK. The source does not show which version it builds against. The OK outcome of `Service.StudentService.DeleteStudentById` for a missing id, and that of the second delete in `Divergences.ReplayServiceTests`, rest on the 3.x behaviour.
- The HTTP controller (`StudentController.java`) only delegates. The translation of statuses to HTTP responses and JSON serialisation are not modelled.
- The persistence layer is modelled only by the map contract of `findById`, `findAll`, `save` and `deleteById`. SQL, transactions, flushing and the store's failures are left out.
- Id generation: the model's store hands out ids from a counter. Callers rely only on the new id being unused. The real generation strategy is not visible.
- `save` of a record with an id that is not stored is modelled as an insert under a fresh id. A store that would insert under the given id is not modelled.
- `Repository.StudentRepository.FindAll` lists records in ascending id order. The real order is whatever the store returns, and no contract depends on it.
- The mapper's generated code is not visible. Whether it copies the payload's id is a parameter of the service (`StudentMapper.copiesId`). The contracts of `CreateStudent` hold either way.
- `Student` is a value. The Java code mutates the managed entity returned by `findById` through its setters. Entity identity, aliasing and persistence-context caching are not modelled.
- Ids are unbounded integers. The 64-bit range of `Long` is not modelled, and neither is a null id, for which the store's `findById` and `deleteById` would throw.
- `UUID.randomUUID()` is not modelled. Its result is a parameter in the canonical version-4 form. Uniqueness across calls and randomness are not modelled.
- `LocalDate.now()` is not modelled. The date is the `today` parameter, and dates are not validated.
- The number of `findById` calls is not tracked, only the number of `save` calls. So the tests' expectation that delete performs a lookup appears only as the OK outcome for a missing id.
- Concurrent calls racing on the same id are not modelled. Their ordering is up to the store.
- The Lombok-generated builders, getters and setters of `ErrorResponse` and `StudentDTO` are plain datatypes here.
