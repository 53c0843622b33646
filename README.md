# Student records manager: record store and page sync layer

This project models the two stateful parts of a small student-records
application. Both are built around a list of records `{id, name, age, course}`.

- **Record store** (`backend/routes/students.js`). This is an Express
  router over a module-level array `students`, seeded with ids 1 to 3, and a
  counter `nextId = 4`. It has five handlers: list, get by id, create, update
  and delete. In the model, `StudentRoutes.StudentStore` is a class with
  those fields. Each handler is a method that returns the status code and
  JSON body it would send. The ghost set `issued` holds every id ever
  assigned: the seeded ids and those the counter has handed out. The store invariant `StoreInvariant` says ids are pairwise
  distinct, every stored id was issued, and every issued id is below
  `nextId`. Every handler preserves it, and `nextId` never decreases. So an
  id, once deleted, is never issued again.
- **Page sync layer** (`frontend/script.js`). This is the browser page's
  cache `students`, the form mode `currentStudentId` and the pending delete
  `studentToDelete`. In the model, `ClientSync.Client` is a class with those
  three fields. Its methods are the page's handlers. Each awaited `fetch` is
  a `Response` parameter (a 2xx reply with its JSON, or a failure). Each
  handler returns the request it sends, if any. The search filter
  `filterStudents` is the function `ClientSync.FilterStudents`.

Both sides use JavaScript values in the same way. Module `JsValues` models
the library behaviour they rely on:

- truthiness
- `String(v)` and `v.toString()`
- `parseInt` on text (leading white space, a sign, a `0x` prefix, the
  longest run of digits, and `NaN` when there are no digits)
- `trim`, `toLowerCase` and `includes` on ASCII strings

Module `Records` holds the record type and the two list operations that
both sides use: `findIndex`/`find` by id, and `filter(s => s.id !== id)`.

The model follows the code as written, including these behaviours of it:

- Create checks only that `name`, `age` and `course` are truthy. There is
  no age range, no type check and no trimming on the server.
- The update guard at `backend/routes/students.js:57` is inverted. An
  existing id gets 400 `{error: "Student not found"}` and nothing changes.
  A missing id (including one that parses to `NaN`) falls through to
  `students[-1] = {...}`. That writes the array's property "-1" and never
  an element. The field `minusOne` models that property:
  - The reply is 200 with the merged object.
  - The reply is 500 when a falsy field is read from a still-undefined
    `students[-1]`, which throws a TypeError.
  - DELETE's `filter` builds a new array, so "-1" is gone afterwards.
- An id is not validated. One with no digits after leading white space
  and an optional sign (such as `abc`) parses to `NaN`, which matches no
  record: GET and DELETE answer 404 and PUT falls through to
  `students[-1]`. Text after the digits is ignored, so `3abc` parses to 3
  and reaches record 3.

`StudentRoutes.DeleteTwiceThenCreate` and `ClientSync.UpdateOfStoredRecord`
are client methods that drive the classes through short scenarios, for any
store state:

- delete an id, delete it again (404), then create (the new record never
  gets the deleted id)
- the page, whose cache equals the server's list, edits any stored record
  and submits a complete form; the page PUTs to that record's id, the
  server's inverted guard refuses the update, the page receives that 400
  reply as a failed fetch, and the cache still equals the server's list

## Model

| member | source | states |
|---|---|---|
| `JsValues.ParseText` | backend/routes/students.js:20 | `parseInt` of route text yields an integer or NaN, never any other value |
| `JsValues.DecimalRoundTrip` | frontend/script.js:313 | `parseInt(String(n))` is `n` for every integer `n`, so the id the page writes into a URL is the id the routes compare against |
| `JsValues.NatTextValue` | frontend/script.js:313 | the decimal digits `String(n)` writes for a natural `n` have the value `n` |
| `JsValues.MagnitudeOfDigits` | backend/routes/students.js:20 | the unsigned part of `parseInt` reads a whole run of decimal digits (no `0x` prefix is possible) |
| `JsValues.ParseUnsigned` | backend/routes/students.js:20 | `parseInt` of a run of decimal digits is their value |
| `JsValues.ParseNegative` | backend/routes/students.js:20 | `parseInt` of `-` and a run of decimal digits is the negated value |
| `JsValues.ParseInt` | backend/routes/students.js:43 | `parseInt` of a body field yields an integer or NaN, and an integer-valued age comes back unchanged |
| `JsValues.TruthyIff` | backend/routes/students.js:34 | a value is truthy exactly when it is not undefined, null, NaN, false, 0 or the empty string |
| `JsValues.TrimIsPiece` | frontend/script.js:142 | `trim` gives a piece of the text with only white space around it, and the piece neither starts nor ends with white space |
| `JsValues.LowerCases` | frontend/script.js:342 | `toLowerCase` keeps the length, turns each upper-case letter `A`-`Z` into the matching `a`-`z`, leaves no upper-case letter and keeps every other character |
| `JsValues.LowerIdempotent` | frontend/script.js:342 | lower-casing twice is lower-casing once |
| `JsValues.ToStringCall` | frontend/script.js:353-354 | `v.toString()` throws exactly for undefined and null, and otherwise gives `String(v)`; for a number that text is one `parseInt` reads back as the same number |
| `JsValues.TrimEmptyIff` | frontend/script.js:142 | a trimmed name is empty exactly when the name is all white space |
| `JsValues.ContainsIff` | frontend/script.js:351-354 | `includes` is true exactly when the term occurs at some position |
| `JsValues.LeadingDigits` | backend/routes/students.js:20 | `parseInt` reads the longest prefix of digits, and the character after it is not a digit |
| `Records.FindIndex` | backend/routes/students.js:56 | `findIndex` by id returns the first index whose id is strictly equal to the key, or -1 (`None`) when no record has it |
| `Records.RemoveId` | backend/routes/students.js:76 | `filter(s => s.id !== id)` never makes the list longer and leaves no record with the id |
| `Records.ReplaceFirst` | frontend/script.js:258-261 | `students[findIndex(...)] = x` replaces exactly the first record with the id, keeps the length and every other position, and changes nothing when no record has it |
| `Records.RemoveIdMembers` | backend/routes/students.js:76 | `filter(s => s.id !== id)` keeps exactly the records whose id is not the key |
| `Records.RemoveIdAppend` | frontend/script.js:322 | the id filter keeps the survivors in order: it distributes over concatenation |
| `Records.RemoveIdUnchangedIff` | backend/routes/students.js:74-82 | the filter leaves the list unchanged exactly when no record has the id; otherwise the list gets shorter |
| `Records.RemoveIdKeepsUnique` | backend/routes/students.js:76 | deleting keeps ids pairwise distinct |
| `Records.RemoveIdUniqueAt` | backend/routes/students.js:76 | with distinct ids, deleting removes exactly the one matching record and keeps the rest in order |
| `StudentRoutes.RequiredFieldsIff` | backend/routes/students.js:34 | the create check on `name`, `age` and `course` passes exactly when none of the three fields is a falsy value |
| `StudentRoutes.Merge` | backend/routes/students.js:62-67 | evaluating the object literal property by property: it throws exactly when a falsy field meets an undefined `students[-1]`; a stored object makes it total; a body with all three fields truthy ignores the stored object (age through `parseInt`); an all-falsy body keeps the stored object; each field is the supplied one when truthy and the stored one otherwise |
| `StudentRoutes.MergeIdempotent` | backend/routes/students.js:62-67 | repeating the same PUT body leaves the merged object unchanged |
| `StudentRoutes.StudentStore.constructor` | backend/routes/students.js:5-11 | the store starts with ids 1 to 3 and `nextId = 4`, and the invariant holds |
| `StudentRoutes.StudentStore.List` | backend/routes/students.js:14-16 | GET `/` returns 200 with the whole list in stored order and changes nothing |
| `StudentRoutes.StudentStore.Get` | backend/routes/students.js:19-27 | GET `/:id` returns 200 with the first record whose id equals the parsed id exactly when one exists, else 404 "Student not found"; state is unchanged |
| `StudentRoutes.StudentStore.Create` | backend/routes/students.js:30-49 | a falsy name, age or course gives 400 with nothing changed; otherwise exactly one record with id = old `nextId` (never issued before) is appended, `nextId` goes up by one, the reply is 201, and the invariant holds |
| `StudentRoutes.StudentStore.Update` | backend/routes/students.js:52-69 | an existing id gives 400 "Student not found"; a missing id writes only `students[-1]` (200 with the merge, or 500 on the TypeError); the records, their length and `nextId` never change |
| `StudentRoutes.StudentStore.Delete` | backend/routes/students.js:72-83 | the list becomes the id filter of the old list; the reply is 200 exactly when it got shorter (exactly when a record had the id), else 404 with the list unchanged; `nextId` and the issued ids are untouched and the invariant holds |
| `ClientSync.FormPayload` | frontend/script.js:141-151 | the page's form check passes exactly when the trimmed name, the age and the course are all non-empty strings |
| `ClientSync.FormAcceptedIff` | frontend/script.js:141-151 | the form check passes exactly when the name has a character other than white space and age and course are non-empty |
| `ClientSync.Client.constructor` | frontend/script.js:22-24 | the page starts with an empty cache and no edited or pending id |
| `ClientSync.Client.LoadStudents` | frontend/script.js:60-78 | the cache becomes the server's list on success and is unchanged on failure |
| `ClientSync.Client.ResetForm` | frontend/script.js:287-293 | the form returns to create mode (`currentStudentId` null) |
| `ClientSync.Client.CancelEdit` | frontend/script.js:282-284 | cancel leaves update mode without touching the cache or the pending delete |
| `ClientSync.Client.HandleFormSubmit` | frontend/script.js:138-154 | an incomplete form sends nothing and changes nothing; a complete one sends the create request and behaves as `AddStudent` |
| `ClientSync.Client.AddStudent` | frontend/script.js:157-192 | a successful add appends the returned record at the end of the cache and resets the form; a failed add changes nothing |
| `ClientSync.Client.EditStudent` | frontend/script.js:195-226 | the page fetches `/id` and enters update mode for `id` only when the fetch succeeds; the cache is not touched |
| `ClientSync.Client.HandleUpdate` | frontend/script.js:229-279 | an incomplete form sends nothing; otherwise it PUTs to the remembered id, whose URL text is the id's decimal digits (or `null` outside update mode); on success the cache becomes `ReplaceFirst` of the old cache and the form is reset; a failure changes nothing |
| `ClientSync.Client.OpenDeleteModal` | frontend/script.js:296-300 | the id is remembered for confirmation and nothing else changes |
| `ClientSync.Client.CloseDeleteModal` | frontend/script.js:303-306 | the pending id is cleared |
| `ClientSync.Client.ConfirmDelete` | frontend/script.js:309-338 | nothing is sent while the pending id is falsy (null or 0); otherwise the pending id is a number and the DELETE goes to its decimal text; success removes every cache entry with that id, failure keeps the cache, and the pending id is cleared either way |
| `ClientSync.MatchesShortCircuit` | frontend/script.js:350-354 | the chained-or test accepts on a name match whatever the other fields hold, rejects exactly when all four `includes` tests ran and failed, and throws only on a non-string name or course or an undefined or null age |
| `ClientSync.Select` | frontend/script.js:349-355 | `filter` with a callback that may throw never yields more records than the cache |
| `ClientSync.SelectDefinedIff` | frontend/script.js:349-355 | the filter throws exactly when its test throws for some record |
| `ClientSync.FilterStudents` | frontend/script.js:341-347 | an empty lower-cased, trimmed term yields the whole cache |
| `ClientSync.SelectMembers` | frontend/script.js:349-355 | the filter keeps exactly the cache records the test accepts |
| `ClientSync.SelectAppend` | frontend/script.js:349-355 | the filter keeps cache order: it distributes over concatenation |
| `ClientSync.MatchesSearchable` | frontend/script.js:350-354 | on a record with string name and course and a non-null age, the `||` test does not throw and is the disjunction of the four `includes` tests |
| `ClientSync.FilterSelectsMatches` | frontend/script.js:341-358 | with string names and courses and a non-null age, a non-empty term yields exactly the records whose lower-case name or course, or whose age or id as text, contains the term |
| `ClientSync.NullIdIsNaN` | frontend/script.js:243 | a PUT outside update mode goes to `/null`, which the routes parse to NaN |
| `ClientSync.RequestIdRoundTrip` | frontend/script.js:243 | the id the page writes into the PUT and DELETE URLs is parsed by the routes back to the same number |
| `StudentRoutes.DeleteTwiceThenCreate` | backend/routes/students.js:72-83 | deleting an id twice answers 404 the second time, and a following create succeeds with an id different from the deleted one |
| `ClientSync.UpdateOfStoredRecord` | backend/routes/students.js:56-59 | a page whose cache equals the server's list edits any stored record, entering update mode from the server's GET reply, and submits a complete form: the page sends the PUT to that record's decimal id, the server refuses it with 400, the page handles that reply as a failed fetch, and the cache still equals the server's list |

## Left out

- `backend/server.js` is not part of this model. It holds the Express
  wiring, CORS, JSON body parsing (including its 400 on malformed JSON) and
  `listen`. The router's handlers are modelled as methods called directly.
- Request and response objects are not modelled. A handler returns a
  status and body. Express's default error page for a thrown TypeError is
  the single value `InternalError`.
- Body field values are undefined, null, booleans, integers, `NaN` and
  strings. Nested objects, arrays and fractional or exponent-form numbers
  are not modelled.
- `parseInt` is not modelled on non-ASCII white space, on numbers beyond
  the exact range of a double, or on `-0`. The model is exact only on the
  ASCII subset of its inputs.
- JSON serialization of replies is not modelled. On the wire `NaN` becomes
  `null` and undefined fields are dropped. Each page handler takes the
  decoded reply as a parameter instead.
- The cache's records have integer ids. The object the update handler
  returns for a missing id has no `id` field, so it is outside that record
  type.
- DOM and presentation are not modelled: table rendering, loading and
  error rows, the count, button visibility, the modal, scrolling, `alert`,
  notifications and their timers, and the injected CSS. None of them holds
  state the handlers read.
- Form contents are not modelled as state. `editStudent` filling the
  inputs and `resetForm` clearing them are left out. Each submit takes the
  form's current values as a parameter.
- Overlapping requests are not modelled. Each handler runs as one atomic
  step, without interleaving between an `await` and its continuation.
- `toLowerCase` is modelled on ASCII letters only, without Unicode case
  mapping.
- `trim` strips only ASCII white space (space, tab, line feed, vertical
  tab, form feed, carriage return). JavaScript also strips U+00A0, U+FEFF
  and the other Unicode space separators, so a name made only of
  non-breaking spaces passes `FormPayload`'s check in the model but fails
  the page's.
- StudentRoutes.StudentStore.Create: the counter `nextId` is an unbounded
  integer. In JavaScript it is a double, so after 2^53 creates `nextId++`
  stops changing it and ids would repeat. The model does not capture that
  saturation, and the store invariant relies on it not happening.
