# Event store of the events backend, in Dafny

The backend is a small Express service (`backend/app.js`) that keeps a
collection of event records in one JSON document and serves it through six
routes. Each handler reads the whole document, works on the array in
memory and, for a write, saves the array back. This project models what
the handlers do to that array:

- listing with an optional case-insensitive `search` and a trailing `max`
  cut, projected to summaries;
- lookup by id;
- input validation;
- create, update and delete.

Modules:

- `Text` (`text.dfy`): the ECMAScript string operations the handlers use.
  These are `trim` (over the exact WhiteSpace and LineTerminator code
  points), `toLowerCase` for ASCII letters, and `includes`. `includes` is
  proved equal to "the pattern occurs at some index".
- `Events` (`events.dfy`): a record is a `map<string, string>`. The module
  also holds the error responses (status and message), `find`/`findIndex`
  by id, GET by id, the spread `{ id, ...event }`, and `splice(i, 1)`.
- `Validation` (`validation.dfy`): the body and required-field checks that
  POST and PUT share.
- `Listing` (`listing.dfy`): the GET /events pipeline. It is `filter`, then
  `slice` with JavaScript's index clamping, then `map` to summaries.
- `Store` (`store.dfy`): a class `EventStore` whose field `events` is the
  stored array. Its methods `Create`, `Update` and `Delete` reassign that
  field the way `push`, indexed assignment and `splice` change the array.
  The module also holds lemmas on what a later get sees after each write,
  on id uniqueness, and a worked create-get-search scenario.

Inputs of the model that the service takes from outside:

- The random id of a new event (`Math.round(Math.random() * 10000)`) is the
  `newId` parameter of `Create`. Nothing is claimed about its uniqueness.
- The request body's `event` is an `Option<Record>`.
- The query's `search` is an `Option<string>`. `None` stands for an absent
  parameter.
- The query's `max` is an `Option<int>`. `None` stands for an absent or
  empty parameter. Every other value, `0` included, is a non-empty string,
  which JavaScript treats as true, so the cut applies.

In four places the code does something other than what its API suggests.
The model keeps the code's behaviour:

- **Limit size.** With `len < max`, `slice(len - max, len)` counts the
  negative start from the end again. It keeps `max - len` elements while
  `max < 2 * len`, and all of them from `2 * len` on. It does not return
  all `len`, nor the last `min(max, len)` (`Listing.TrailingCut`).
- **Body `id`.** A body field `id` overrides the generated id on create and
  the path id on update, because the spread comes after `id`. The path id
  is therefore not authoritative (`Store.UpdateBodyIdOverrides`).
- **Delete.** After a delete, a get of the id fails exactly when the
  deleted id occurred only once (`Store.DeleteThenGetAny`). Under unique
  ids it therefore always fails (`Store.DeleteThenGet`). When the id
  occurred more than once, the next event with that id is returned.
- **Missing fields.** A record without `title`, `description` or
  `location` is searched as if the field read "undefined", which is what
  the template literal produces. A summary of a record that lacks a field
  leaves that key out, since `JSON.stringify` drops `undefined`.

## Model

| member | source | states |
|---|---|---|
| `Text.TrimIsCore` | backend/app.js:99-104 | `trim()` returns a contiguous piece of the string. Everything cut away is whitespace, and the piece neither starts nor ends with whitespace. |
| `Text.TrimEmptyIffBlank` | backend/app.js:99-104 | `!s.trim()` holds exactly when every character of `s` is whitespace. |
| `Text.IncludesIff` | backend/app.js:34 | `includes` finds the pattern exactly when it occurs at some index of the text. |
| `Text.IncludesChars` | backend/app.js:34 | Every character of a found pattern is in the text. |
| `Text.LowerOmits` | backend/app.js:34 | A letter absent from the text in both cases is absent from its lower-cased form. |
| `Events.FindIndex` | backend/app.js:154 | The result is -1 exactly when no event has the id. Otherwise it is an index whose event has the id, with no earlier event having it. |
| `Events.Find` | backend/app.js:73 | The result is none exactly when no event has the id. Otherwise it is an event of the collection with that id. |
| `Events.FindAtFindIndex` | backend/app.js:73 | `find` returns the element at the index `findIndex` reports, so both pick the first match. |
| `Events.GetEvent` | backend/app.js:65-80 | The handler answers 404, with a message naming the id, exactly when no event has the id. Otherwise it returns the first event with that id. |
| `Events.NewEvent` | backend/app.js:114-117 | `{ id, ...event }` has the input's keys plus `id`. Every input field is kept. Its id is the input's `id` when it has one, else the given id. |
| `Events.Removed` | backend/app.js:193 | `splice(i, 1)` shortens the collection by one. Positions before `i` are kept, and later ones move down by one. |
| `Validation.Validate` | backend/app.js:93-107 | A missing body fails with "Event is required". A body passes exactly when all six required fields are present and non-blank after trim. Otherwise it fails with "Invalid data provided.". |
| `Validation.AllFilledIffRequired` | backend/app.js:98-105 | The six checks are exactly one check per required field. |
| `Validation.ValidateIffNonBlank` | backend/app.js:98-105 | An input passes exactly when every required field is present and holds a non-whitespace character. |
| `Validation.ValidationBoundary` | backend/app.js:98-107 | An empty `title` with all other fields "x" fails with "Invalid data provided.". All six fields "x" passes. |
| `Listing.Filter` | backend/app.js:31-36 | An event is kept exactly when it is stored and the lower-cased `title + " " + description + " " + location` includes the lower-cased search. A match may span two fields, and a missing field reads "undefined". The result is never longer than the collection. |
| `Listing.FilterAppend` | backend/app.js:32-35 | Filtering distributes over concatenation, so kept events stay in their original relative order. |
| `Listing.FilterEmptySearch` | backend/app.js:31 | Filtering by the empty string keeps everything, so skipping the filter for an empty search loses nothing. |
| `Listing.Selected` | backend/app.js:31-36 | A missing or empty search keeps the collection as it is. Any other search keeps exactly the matching events. |
| `Listing.TrailingCut` | backend/app.js:39-41 | The cut is a suffix of the selected events. For `0 <= max <= len` it is the last `max`; for `len < max < 2*len` it is `max - len` elements; for `max >= 2*len` it is all; for negative `max` it is empty. |
| `Listing.Summarize` | backend/app.js:45-51 | A summary holds exactly the fields `id`, `title`, `image`, `date` and `location` the event has, with the event's values. |
| `Listing.Summaries` | backend/app.js:45 | The summaries have the same length and order as the events, one summary per event. |
| `Listing.ListEvents` | backend/app.js:25-53 | The response is the summaries, in stored order, of a trailing part of the selected events. With no `max` that part is all of them. With a `max` its length is what the cut gives. |
| `Listing.ListAll` | backend/app.js:25-53 | With neither parameter, the listing has one summary per stored event, in order. |
| `Listing.ListSearch` | backend/app.js:31-52 | A search-only listing holds the summary of every matching event. Each of its summaries comes from a matching event. |
| `Store.EventStore.constructor` | backend/app.js:110-111 | The store holds the collection read from the document. |
| `Store.EventStore.Create` | backend/app.js:89-125 | An invalid body returns its validation error and leaves the collection unchanged. A valid body appends exactly one record, `{ id: newId, ...input }`, after the unchanged old ones, and returns it. |
| `Store.EventStore.Update` | backend/app.js:128-174 | Validation comes first, so a bad body fails even for an unknown id. An unknown id gives 404 with nothing changed. Otherwise only the first matching position is replaced, wholesale, by `{ id, ...input }`. The length and every other position stay the same. |
| `Store.EventStore.Delete` | backend/app.js:177-202 | An unknown id gives 404 with nothing changed. Otherwise the first event with the id is removed, and the collection is one shorter. |
| `Store.CreateThenGet` | backend/app.js:114-118 | After creating a record whose id was not taken, a get of that id returns the record created. |
| `Store.CreateKeepsLookups` | backend/app.js:73 | A create changes no lookup of an id already present. A colliding new record is shadowed by the older one. |
| `Store.FindIndexPrefix` | backend/app.js:154 | Appending after a prefix that already has a match does not change `findIndex`. |
| `Store.UpdateThenGet` | backend/app.js:154-165 | After an update whose body carries no other id, a get of the path id returns the replacement. Nothing of the old record remains. |
| `Store.UpdateBodyIdOverrides` | backend/app.js:162-165 | A body `id` that differs from the path id ends up in the replaced record. A get of the path id then does not return the replacement. |
| `Store.DeleteThenGetAny` | backend/app.js:185-193 | After a delete, a get of the id fails exactly when no later event had that id. Otherwise it returns the first such later event. |
| `Store.DeleteThenGet` | backend/app.js:185-193 | With unique ids, a get of a deleted id fails with 404. |
| `Store.CreateKeepsUnique` | backend/app.js:114-118 | A create whose record id is new keeps ids unique. |
| `Store.UpdateKeepsUnique` | backend/app.js:154-165 | An update that keeps the path id keeps ids unique. |
| `Store.DeleteKeepsUnique` | backend/app.js:193 | A delete keeps ids unique. |
| `Store.LaunchScenario` | backend/app.js:25-125 | Creating the "Launch" example event under a fresh id passes validation. A get of the id returns it, a search for "kickoff" lists its summary, and "nomatch" does not match it. |

## Left out

- HTTP plumbing is not modelled: the Express app, body parsing, static files, CORS headers and `app.listen`.
- Reading and writing `./data/events.json` and the JSON parse and stringify are not modelled. The document is the store's `events` field.
- An I/O failure is not modelled. It propagates as an unhandled rejection.
- The images endpoint is a passthrough of a file read, so it is left out.
- `Math.random()` id generation is floating point and random, so it is left out. The id is the `newId` parameter of `Create`.
- The one-second `setTimeout` before a response only affects timing, so it is left out.
- Concurrent requests and their read-modify-write races are left out.
- Only field values that are strings are modelled. A number, boolean, object or array in a required field makes `trim` throw. A `null` there reads as missing and gets a 400. A field outside the six is copied as it is, whatever its type. A numeric `id` never equals a path id.
- JSON key order is lost. `{ id, ...event }` puts `id` first, but a `map` has no order.
- JavaScript strings are UTF-16 code units. A lone surrogate, which a `\uD800` JSON escape can produce, has no Dafny `char`.
- A truthy `event` that is not an object, such as a number, string or array, is not an `Option<Record>`. The service answers it with 400 "Invalid data provided.".
- Route order is not modelled. `GET /events/images` is registered before `/events/:id` (backend/app.js:56, 65). So an event whose id is "images", which a body `id` can create, cannot be fetched, although `GetEvent(s, "images")` returns it.
- `Text.Lower`: lower-cases ASCII letters only, not JavaScript's full Unicode `toLowerCase`.
- `Listing.ListEvents`: `max` is an integer. A non-numeric or fractional `max`, which goes through `NaN` or fractional slice indices, is not modelled.
- `Listing.ListEvents`: the query values are single strings. Repeated parameters, which Express passes as arrays, are not modelled.
