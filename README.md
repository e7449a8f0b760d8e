# Notes backend model

A Dafny model of the notes backend of a small notes-and-projects web
application. It covers two layers:

- **The notes service** (`NotesService`, in `notes_service.dfy`). It holds the
  notes table and the projects table as maps keyed by id. The id sequence of
  the notes table is a counter. `findAll` and `findOne` are read-only
  functions of the tables. `create`, `update` and `delete` are methods that
  change the notes table, and each states the whole new state.
  - `findAll` is specified against an independent query definition,
    `FirstAscending`: the `limit` smallest matching ids in ascending order.
  - The cursor is an exact `id == cursor` filter, as implemented. It is not
    keyset paging.
- **The notes controller** (`NotesController`, in `notes_controller.dfy`). Its
  handlers are pure decision functions. Each returns either a BadRequest or
  the service call it would make, with that call's arguments.
  - The handlers parse strings with `parseInt(s, 10)`. That function is
    modelled in `JsNumbers` (`js_numbers.dfy`) after section 19.2.5 of
    ECMA-262: skip leading white space, take an optional sign, then the
    longest run of decimal digits, and give NaN when there is no digit.
  - `JsNumbers` also renders an integer as decimal text, as the service's
    "Note with id … not found" message does. Reading that text back with
    `ParseInt` gives the same integer.

`entities.dfy` holds the records: `Note` and `Project` (the entity shapes), the
create and update payloads, and the errors (`BadRequest`, `NotFound`,
`Conflict`).

The method `NotesService.DuplicateCreateScenario` works through the duplicate
create scenario from the contracts alone:

1. The first create in a project succeeds.
2. A second create with the same title and another key is a Conflict.
3. Listing the project then gives exactly the one note.

The method `NotesService.DeletedIdNotReusedScenario` shows, the same way,
that a create after a delete gets a new, greater id.

## Model

| member | source | states |
|---|---|---|
| `NotesService.NotesService.FindAll` | backend/src/notes/notes.service.ts:17-41 | BadRequest "Invalid projectId" iff no project has the id. Otherwise every returned note is a stored row of that project. A truthy search makes every title contain it. A truthy cursor makes every id equal it, so at most one note is returned. Ids strictly ascend and the length is at most `limit` (default 10). The result is exactly the first `limit` matching rows: none with a smaller id is skipped, and all are returned when fewer than `limit` match |
| `NotesService.FirstAscending` | backend/src/notes/notes.service.ts:36-40 | The ORDER BY id ASC, `take: limit` query over a set of ids. The result has length min(limit, size) and holds only members of the set, strictly ascending. No smaller member is skipped, and every member is present when fewer than `limit` are returned |
| `NotesService.Query` | backend/src/notes/notes.service.ts:28-40 | The rows the where-clause selects: stored rows that match it, ascending by id, min(take, number of matches) of them, none skipped |
| `NotesService.WhereOf` | backend/src/notes/notes.service.ts:28-34 | The filter always fixes `projectId`. It has a title condition iff the search is truthy (present and non-empty) and an id condition iff the cursor is truthy (present, not NaN, not 0). The id condition is the cursor's value |
| `NotesService.ExactIdMatchesAtMostOne` | backend/src/notes/notes.service.ts:32-33 | An id condition, as a truthy cursor adds, selects at most one stored row |
| `NotesService.QueryOfOneRow` | backend/src/notes/notes.service.ts:36-40 | Over a table of one row that passes the filter, the query lists exactly that row |
| `NotesService.ContainsOccurs` | backend/src/notes/notes.service.ts:30 | The title filter `Contains(t, s)` holds iff `s` starts at some position of `t`, that is, `s` is a substring of `t` |
| `NotesService.FalsyFiltersAreIgnored` | backend/src/notes/notes.service.ts:29-34 | An absent or empty search gives the same result as no search. An absent, NaN or zero cursor gives the same result as no cursor |
| `NotesService.NotesService.FindOne` | backend/src/notes/notes.service.ts:62-68 | Succeeds iff the id is stored and returns that row. Otherwise NotFound "Note with id <id> not found" |
| `NotesService.NotesService.Create` | backend/src/notes/notes.service.ts:44-59 | BadRequest when the project is unknown. Otherwise Conflict when a note with the same title exists in the project and the key is non-empty. On failure neither table changes. On success exactly one note is inserted and returned, with the given title, content and projectId. Its id comes from the sequence: at least the sequence's old value, below its new value, and greater than every id stored before, so an id is never reused, even after a delete. All earlier notes are unchanged, and a duplicate title is inserted when the key is empty |
| `NotesService.NotesService.Insert` | backend/src/notes/notes.service.ts:58 | `save` of a new row. The id sequence assigns an id at least its old value and below its new value, so it is greater than every stored id. The row carries the payload's fields, and only that key is added to the table |
| `NotesService.FindByTitle` | backend/src/notes/notes.service.ts:50-52 | The lookup of an existing note by title and project. It finds a row iff some stored row has both that title and that projectId. The row it finds is stored under its own id and has that title and projectId |
| `NotesService.NotesService.Update` | backend/src/notes/notes.service.ts:71-83 | NotFound iff the id is absent, and then nothing changes. Otherwise the stored row is replaced by `Merge(stored, patch)` and returned, and no other row changes. The new projectId is not checked against the projects table |
| `NotesService.Merge` | backend/src/notes/notes.service.ts:78-80 | `field ?? stored` per field: a present field replaces the stored value, an absent one keeps it, and the id is kept |
| `NotesService.NotesService.Delete` | backend/src/notes/notes.service.ts:86-91 | NotFound "Note not found" iff no row has the id, and then nothing changes. Otherwise exactly that row is removed and a later `FindOne` of the id fails |
| `NotesService.NotesService.constructor` | backend/src/notes/notes.service.ts:9-14 | The service over given tables, each row stored under its own id |
| `JsNumbers.TrimStart` | backend/src/notes/notes.controller.ts:23 | The first step of `parseInt`: the result is the suffix left after the leading white space and line terminators, and it does not start with white space |
| `JsNumbers.DigitPrefix` | backend/src/notes/notes.controller.ts:23 | The longest prefix of decimal digits: all digits, and the character after it is not a digit |
| `JsNumbers.ParseInt` | backend/src/notes/notes.controller.ts:23 | `parseInt(s, 10)`. A string that starts with a digit is the value of its leading run of digits. `ParseIntOfNumeral` and `ParseIntOfNonNumeral` together cover every string |
| `JsNumbers.ParseIntWithoutDigit` | backend/src/notes/notes.controller.ts:23-24 | A string with no decimal digit anywhere is NaN, so it is rejected |
| `JsNumbers.ParseIntOfNumeral` | backend/src/notes/notes.controller.ts:23 | White space, an optional sign, then digits parse to the signed value of those digits, whatever follows them |
| `JsNumbers.ParseIntOfNonNumeral` | backend/src/notes/notes.controller.ts:23-24 | Without a digit after the white space and the optional sign, `parseInt` is NaN |
| `JsNumbers.NatToString` | backend/src/notes/notes.service.ts:65 | The decimal text of a natural number is non-empty, all digits, has no leading zero, and has that number as its value |
| `JsNumbers.IntToString` | backend/src/notes/notes.service.ts:65 | `${id}` of an integer: non-empty, starting with "-" iff the integer is negative, followed by decimal digits whose value is its magnitude |
| `JsNumbers.ParseIntOfIntToString` | backend/src/notes/notes.service.ts:65 | Reading back the decimal text of any integer with `parseInt` gives the integer |
| `NotesController.FindAll` | backend/src/notes/notes.controller.ts:17-30 | BadRequest "Invalid projectId" iff `parseInt` of the projectId is NaN, and then no service call. A missing projectId reads as "undefined". Otherwise the service `findAll` call gets the parsed projectId. An absent or empty cursor is passed as undefined, otherwise parsed. An absent or empty limit is passed as 10, otherwise parsed. The search is forwarded unchanged |
| `NotesController.FindAllAcceptsNumeralPrefix` | backend/src/notes/notes.controller.ts:23-29 | Any projectId made of white space, an optional sign and a run of digits, then anything that does not start with a digit, is accepted with the signed value of the digits |
| `NotesController.FindAllRejectsNonNumeral` | backend/src/notes/notes.controller.ts:23-26 | A projectId with no digit after the white space and sign, or no projectId at all, is BadRequest "Invalid projectId" |
| `NotesController.FindAllExample` | backend/src/notes/notes.controller.ts:23-29 | "12abc" is accepted as project 12, with no cursor and limit 10 |
| `NotesController.Create` | backend/src/notes/notes.controller.ts:34-40 | BadRequest "Idempotency-Key header required" iff the `idempotency-key` header is missing or empty. Otherwise the service `create` call gets the body and the key unchanged, so the key it gets is never empty |
| `NotesController.Update` | backend/src/notes/notes.controller.ts:44-50 | BadRequest "Invalid note ID" iff the path id parses to NaN. Otherwise the service `update` call gets the parsed id and the body unchanged |
| `NotesController.Delete` | backend/src/notes/notes.controller.ts:54-60 | BadRequest "Invalid note ID" iff the path id parses to NaN. Otherwise the service `delete` call gets the parsed id |
| `NotesController.PathIdRoundTrip` | backend/src/notes/notes.controller.ts:45-49 | A note id written in the path as its decimal text reaches the service `update` and `delete` calls unchanged |

## Left out

- NotesService.NotesService.FindAll: requires `limit` to be undefined or an integer of at least 1. The query's behaviour with `take` 0, a negative value or NaN belongs to the ORM and is not part of this model.
- NotesService.NotesService.FindAll: requires a search text without `%`, `_` or `\`. The source splices the search unescaped into a PostgreSQL LIKE pattern, where these are metacharacters. `LIKE` is case-sensitive in PostgreSQL, and the model compares characters exactly, as the query does.
- NotesService.NotesService.Create: the payload has no `id`. A `save` with an existing id would update that row instead of inserting.
- NotesService.NotesService.Create: each call is atomic. The race between the duplicate check and the insert under concurrent requests is not modelled.
- NotesService.NotesService.Update: the database's foreign-key constraint is not modelled. A projectId naming no project is stored, whereas the database would reject the save with a storage error.
- NotesService.NotesService.FindAll: ids and projectIds are unbounded integers. The columns are PostgreSQL `integer` (32-bit) columns (backend/src/notes/note.entity.ts:6-16). A projectId or cursor outside -2^31..2^31-1 makes the real query fail with a server error (HTTP 500). The model answers BadRequest or an empty list instead.
- NotesService.NotesService.FindOne: an id outside the 32-bit `integer` range makes the real query fail with a server error. The model answers NotFound.
- NotesService.NotesService.Create: a projectId outside the 32-bit `integer` range makes the real query fail with a server error. The model answers BadRequest. The model's id sequence also does not stop at 2^31-1, where PostgreSQL's `serial` sequence fails.
- NotesService.NotesService.Update: an id or a new projectId outside the 32-bit `integer` range makes the real query or save fail with a server error. The model answers NotFound, or stores the value.
- NotesService.NotesService.Delete: an id outside the 32-bit `integer` range makes the real delete fail with a server error. The model answers NotFound.
- NotesService.FindByTitle: `findOne` without an ORDER BY returns whichever matching row the database yields first. The model takes the least id. Only whether a row exists decides create's outcome.
- Storage errors are not modelled: connection failures, constraint violations, and missing body fields rejected by NOT NULL columns.
- The ORM and PostgreSQL themselves are not modelled: query generation and execution, and cascade deletion of notes with their project. The tables are in-memory maps.
- JsNumbers.ParseInt: returns the exact integer. JavaScript rounds numerals beyond 2^53 to the nearest double, and a very long numeral becomes Infinity.
- JsNumbers.ParseInt: `-0` is the integer 0, as every use here treats it: it is falsy like 0 and prints as "0".
- JsNumbers.IntToString: gives plain decimal digits for every integer. JavaScript writes numbers of 10^21 and above in exponent notation.
- NotesController.FindAll: takes each query parameter as one string or absent. A repeated parameter, which the framework passes as an array, is not modelled.
- The response ETag interceptor (`etag.interceptor.ts`) is not part of this model. It hashes the JSON body with SHA-256, a foreign call.
- The projects service and controller are not part of this model. They only delegate to the repository.
- The React client, its fetch wrappers, and the server bootstrap and module wiring are not part of this model.
