# StudentService — a Dafny model

StudentCrudApi keeps its students in memory behind `StudentService`, which
offers `Add`, `GetAll`, `GetById`, `Update` and `Delete`. Only the service's
unit tests (`StudentServiceTests.cs`) are part of this model's source; the
service's own code is not. The model is therefore an abstract specification
of `StudentService` whose contracts match what those tests assert, stated for
every store rather than only for the test scenarios.

- `models.dfy` — `Models.Student`: an integer id, a name and a school.
- `options.dfy` — `Options.Option`: `None` plays the role of the `null` that
  `GetById` returns when no record matches.
- `student_service.dfy` — `StudentService`: the store (records in insertion
  order plus the next id to assign), its invariant `Valid` (every id was
  already handed out, and no two records share one), and the five operations
  as pure functions from the old store to the new store and the answer.
  `Empty()` is the store every test starts from.
- `student_service_facts.dfy` — `StudentServiceFacts`: lemmas that state the
  tests' assertions for all valid stores, and connect the operations to each
  other (`GetById` after `Add`, `Update`, `Delete`; `GetAll` against
  `GetById`).

The test constructor clears the service's list before each test and then
expects the first `Add` to return id 1. The tests do not fix how ids are
assigned beyond that. The model hands out ids from a counter that starts at 1.
The contracts promise only that the first `Add` into the reset store gets 1
and that every assigned id is fresh, so `GetById`, `Update` and `Delete` find
the new record by it.

## Model

| member | source | states |
|---|---|---|
| StudentService.Empty | StudentServiceTests.cs:12-20 | the reset store lists no records, satisfies the invariant, and every lookup in it finds nothing |
| StudentService.GetAll | StudentServiceTests.cs:36-41 | lists the stored records in insertion order, and every listed record's id is one `GetById` finds |
| StudentService.Add | StudentServiceTests.cs:25-30 | the new record is appended after the existing ones, carries the given name and school, and gets an id no stored record has; the invariant is kept |
| StudentService.GetById | StudentServiceTests.cs:47-51 | a record is returned exactly when some stored record carries the id, and it is a stored record with that id; otherwise the absence value |
| StudentService.Update | StudentServiceTests.cs:55-74 | succeeds exactly when the id is stored; on failure the store is unchanged; on success the record carrying the id is overwritten in its own position with the new name and school, every other record stays where it was, and the invariant is kept |
| StudentService.Delete | StudentServiceTests.cs:76-93 | succeeds exactly when the id is stored; on failure the store is unchanged; on success exactly the record carrying the id is cut out, the remaining records keep their order, and the invariant is kept |
| StudentServiceFacts.AddToEmptyAssignsIdOne | StudentServiceTests.cs:25-30 | the first add into the reset store gets id 1 and leaves exactly that one record |
| StudentServiceFacts.AddAllCount | StudentServiceTests.cs:36-41 | any batch of adds grows the record list by the batch length, keeps the earlier records as a prefix, and keeps the invariant |
| StudentServiceFacts.TwoAddsFromEmpty | StudentServiceTests.cs:36-41 | two adds into the reset store leave two records with different ids |
| StudentServiceFacts.AddThenGetById | StudentServiceTests.cs:47-51 | looking up the id an add returned finds the stored record with the added name and school; lookups of other ids are unaffected |
| StudentServiceFacts.UpdateThenGetById | StudentServiceTests.cs:57-64 | updating a stored id succeeds and a later lookup of it shows the new name; lookups of other ids are unaffected |
| StudentServiceFacts.DeleteThenGetById | StudentServiceTests.cs:79-84 | deleting a stored id succeeds and a later lookup of it finds nothing; lookups of other ids are unaffected |
| StudentServiceFacts.DeleteTwice | StudentServiceTests.cs:79-92 | after a successful delete, deleting or updating the same id again reports failure |
| StudentServiceFacts.MissingIdOnEmpty | StudentServiceTests.cs:70-92 | update and delete of any id (999 in the tests) on the reset store report failure and leave it unchanged |
| StudentServiceFacts.GetAllAgreesWithGetById | StudentServiceTests.cs:39-51 | in a valid store, every listed record is exactly what a lookup of its id returns |

## Left out

- The reflection-based reset of the private static `_students` list (StudentServiceTests.cs:15-17) is modelled as the explicit value `Empty()`. The list's process-wide sharing between service instances is modelled as one explicit store value.
- The xUnit harness, the `[Fact]` attributes and the LINQ `Count()` call are test plumbing; sequence length stands in for `Count()`.
- Add: the counter in its body is a modelling choice. The contract promises only a fresh id, and id 1 for the first add into the reset store. Whether ids are list-derived or come from a counter, and whether they are reused after a delete, is not observable in the tests and is not claimed.
- Add: ids are unbounded integers; the wrap-around of a 32-bit C# `int` after 2^31 - 1 adds is not modelled.
- Update: the tests assert only the new name, here and in UpdateThenGetById. Keeping the id is observed by the test, because the lookup after the update uses the old id and must find the new name. Overwriting the school is a modelling choice.
- Add: records are values. The C# reference semantics are not modelled: the caller's object receiving the id, and later changes made through references the caller keeps.
- `null` arguments to `Add` or `Update` are not modelled. The service's reaction to them is not shown.
- `GetAll` returns the stored sequence itself. Whether the C# version hands out a copy or a live view is not shown, and an immutable sequence cannot be corrupted by its caller either way.
