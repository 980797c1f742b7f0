# University service core, modelled in Dafny

This project models the logic of a small Express/Mongoose REST service that
manages university records and user accounts:

- the listing engine `getAllUniversities`. It parses `page` and `limit` with
  `parseInt(x) || default`, range-checks them and chains the optional query
  helpers (`active`, `deleted`, `bookmarked`, `country`, `createdAfter`). It
  then sorts bookmarked records first, counts the matches, rejects a page past
  the last one and cuts out the page with its pagination flags;
- the University document: the `trim`/`lowercase` setters on `name`, the
  schema defaults, the name-uniqueness and URL validators, the query helpers,
  and the lifecycle statics `softDelete`, `restore` and `toggleBookmark`;
- the service wrappers `createUniversity`, `getUniversityById`,
  `updateUniversityById`, `deleteUniversityById` and `toggleBookmarkById`;
- the `authJWT` middleware, the `errorHandler` middleware, and
  `registerUser`/`loginUser`.

Modules (one file each):

| file | module | models |
|---|---|---|
| wrappers.dfy | Wrappers | `Option`, `Result` |
| jstext.dfy | JsText | `trim`, `toLowerCase`, `split`, case-insensitive search, `parseInt` |
| errors.dfy | Errors | failure causes with their status codes; `errorHandler` |
| universities.dfy | Universities | src/models/University.js |
| listing.dfy | Listing | `getAllUniversities` |
| service.dfy | UniversityService | the other functions of src/services/universityService.js |
| auth.dfy | Auth | src/middleware/auth.js |
| users.dfy | Users | src/services/userService.js |

Collections are immutable values. The listing works on a `seq<University>`
snapshot in the collection's natural order. The lifecycle and the services
work on a `map<Id, University>`. The current time is a parameter `now`.
Foreign functions become function-typed parameters, so the model assumes
nothing about them:
- `validator.isURL` becomes `isUrl`;
- `mongoose.Types.ObjectId.isValid` becomes `isValidId`;
- JavaScript `Date` parsing becomes `parseDate`, which returns `None` for an
  invalid date;
- `new RegExp` validity becomes `isPattern`;
- `jwt.verify` becomes `verify`;
- `bcrypt.compare` becomes `compare`;
- `jwt.sign` becomes `sign`.

Each operation returns a `Result`. On failure it carries a `ServiceError(status, cause)`,
with the status code the source attaches. Login and authentication also
record the calls they make to their collaborators, so "no comparison", "no
signing" and "verification sees exactly the token" can be stated.

Behaviour worth knowing, all modelled as the code does it:
- `parseInt(x) || d` turns a missing, non-numeric or zero `page`/`limit` into
  the default. So the page check fires only for negative pages. The limit
  check fires only for negative limits or limits above 100.
- Create reports a name already taken (compared after normalisation) as a
  validation failure, status 400. The case-insensitive unique index reports
  409 only if that check missed the clash. In update, the same index
  violation has no status code and becomes 500.
- Mongoose's `where` merges conditions key by key, and a later condition
  overwrites a `null` one. So `active=true&deleted=true` keeps the records
  that are active and soft-deleted, not nothing.
- An invalid country pattern makes `new RegExp` throw before the date is
  checked, and the listing fails with 500.
- Update copies `isActive` from the request without looking at `deletedAt`.
  So "soft-deleted implies inactive" is kept by `softDelete`, `restore`,
  `toggleBookmark` and `create`, but not by update. `UpdateCanReactivateDeletedRecord`
  exhibits such a case.

## Model

| member | source | states |
|---|---|---|
| `JsText.TrimLowerCommute` | src/models/University.js:9-10 | trimming and lower-casing commute, so the order of the two `name` setters does not matter |
| `JsText.ParseIntDecimal` | src/services/universityService.js:7-8 | `parseInt` reads back any decimal numeral, including when text that does not continue the number follows it (a `0` directly followed by `x` is the hex prefix and is excluded) |
| `JsText.ParseIntNegativeDecimal` | src/services/universityService.js:7-8 | `parseInt` reads back a minus-signed decimal numeral as the negative number |
| `JsText.ParseIntSkipsSpace` | src/services/universityService.js:7-8 | leading JavaScript white space does not change what `parseInt` returns |
| `JsText.JoinSplit` | src/middleware/auth.js:15 | splitting on a character loses nothing: joining the parts with that character gives the header back |
| `JsText.SplitJoin` | src/middleware/auth.js:15 | splitting undoes joining parts that do not contain the separator |
| `JsText.ContainsIgnoringCaseOfPattern` | src/models/University.js:153-155 | lower-casing the pattern does not change what a case-insensitive search matches |
| `Errors.StatusOf` | src/middleware/errorHandler.js:4 | the status is the error's own when set and non-zero, otherwise 500 |
| `Errors.ErrorHandler` | src/middleware/errorHandler.js:4-10 | the status is the error's own status or 500; the message is "Internal server error" when the status is 500 and the error's own message otherwise; the body always has `success: false` |
| `Errors.ExplicitInternalIsHidden` | src/middleware/errorHandler.js:4-5 | an error tagged 500 (or 0) gets exactly the same response as one with no status |
| `Universities.NormaliseName` | src/models/University.js:6-10 | the stored name is the given name with the white space at both ends removed, then lower-cased; it neither starts nor ends with white space and has no upper-case letters |
| `Universities.NormaliseNameIdempotent` | src/models/University.js:9-10 | normalising a stored name again changes nothing |
| `Universities.CaseVariantsCollide` | src/models/University.js:6-19 | names that differ only in letter case are stored as the same name |
| `Universities.WebpagesValid` | src/models/University.js:28-33 | the webpages pass exactly when every entry passes the URL check, so an empty list passes |
| `Universities.ActiveFalse` | src/models/University.js:129-131 | `activeFalse` keeps exactly the records `active` rejects |
| `Universities.DeletedFalse` | src/models/University.js:145-147 | `deletedFalse` keeps exactly the records `deleted` rejects |
| `Universities.BookmarkedFalse` | src/models/University.js:137-139 | `bookmarkedFalse` keeps exactly the records `bookmarked` rejects |
| `Universities.ByCountryIgnoresCase` | src/models/University.js:153-155 | the country filter ignores letter case in both the filter text and the stored country |
| `Universities.SoftDelete` | src/models/University.js:70-86 | unknown id gives 404; otherwise only that record changes: `deletedAt` becomes `now`, `isActive` false, and all other fields stay |
| `Universities.Restore` | src/models/University.js:89-105 | unknown id gives 404; otherwise only that record changes: `deletedAt` becomes null, `isActive` true, and all other fields stay |
| `Universities.ToggleBookmark` | src/models/University.js:108-123 | unknown id gives 404; otherwise only that record changes: `isBookmark` is negated and all other fields stay |
| `Universities.SoftDeleteRepeated` | src/models/University.js:70-86 | deleting twice gives the same record except for the newer timestamp, and the same collection when the time is the same |
| `Universities.SoftDeleteThenRestore` | src/models/University.js:70-105 | delete then restore gives the original record with `isActive` true and `deletedAt` null |
| `Universities.ToggleBookmarkTwice` | src/models/University.js:108-123 | toggling twice gives back the original collection |
| `Universities.LifecyclePreservesInvariants` | src/models/University.js:70-123 | the three transitions keep every record under its own id and keep every soft-deleted record inactive |
| `Universities.SoftDeleteAndRestoreAreConsistent` | src/models/University.js:78-98 | after a soft delete, and after a restore, the record satisfies "deleted implies inactive", whatever it was before |
| `Listing.NumberOr` | src/services/universityService.js:7-8 | `parseInt(x) \|\| d` is never 0: NaN and 0 give the default, and any other number is kept, negatives included |
| `Listing.PageNumber` | src/services/universityService.js:7-13 | the page check fails exactly when the field parses to a negative number; a missing, non-numeric or zero page is 1 |
| `Listing.LimitNumber` | src/services/universityService.js:8-19 | the limit check fails exactly when the field parses to a negative number or to one above 100; a missing, non-numeric or zero limit is 10 |
| `Listing.Compile` | src/services/universityService.js:42-51 | building the query fails exactly when a non-empty country is not a valid pattern (500, checked first) or a non-empty `createdAfter` does not parse (400) |
| `Listing.MatchesRequested` | src/services/universityService.js:24-53 | a record matches exactly when it satisfies each requested helper: a flag field restricts only when it is "true" or "false", country only when non-empty, date (inclusive) only when given; `active=true` requires no `deletedAt` only when `deleted=true` does not overwrite that condition |
| `Listing.ActiveAndDeletedListsReactivated` | src/services/universityService.js:24-34 | `active=true` with `deleted=true` keeps a record that is active and soft-deleted, although the `active` helper alone would reject it |
| `Listing.LaterDateKeepsFewer` | src/models/University.js:149-151 | a later `createdAfter` date keeps only records an earlier date keeps, and no more of them |
| `Listing.FlagFiltersPartition` | src/models/University.js:125-147 | for each flag, the "true" and "false" selections split the collection between them |
| `Listing.Select` | src/services/universityService.js:23-53 | the selected records are exactly the records of the collection that match the query, each as often as the collection holds it, so their number is the match count |
| `Listing.SelectKeepsOrder` | src/services/universityService.js:23-53 | two matching records appear in the selection in the order they have in the collection |
| `Listing.BookmarkedFirst` | src/services/universityService.js:55 | the sort is a permutation, puts every bookmarked record before every other one, and keeps the original order within each group |
| `Listing.Window` | src/services/universityService.js:67 | `skip(k).limit(n)` returns the elements from position k on, at most n of them, as many as remain |
| `Listing.CeilDiv` | src/services/universityService.js:59 | `Math.ceil(n/d)` is the least q with q*d >= n |
| `Listing.Assemble` | src/services/universityService.js:57-78 | fails exactly when there are matches and the page is past the last one, naming page and page count; otherwise the page holds the records from position `(page-1)*limit` on, `limit` of them or as many as remain, and is non-empty when there are matches; `hasNextPage` holds exactly when this is not the last page |
| `Listing.PageArithmetic` | src/services/universityService.js:61-76 | a page within range starts inside the matches, and `page*limit < total` exactly when `page < totalPages` |
| `Listing.List` | src/services/universityService.js:5-83 | page check, then limit check, then country-pattern check (500), then date check, whatever the other filters; every other failure is 400; on success every returned record is in the collection and matches every requested filter, `total` counts all matches, and the page is the requested slice of the bookmark-first order |
| `Listing.NoMatchesAnyPage` | src/services/universityService.js:61-65 | with no matches, every page that passes the checks succeeds with an empty list and zero pages |
| `Listing.PageBeyondLast` | src/services/universityService.js:61-65 | with matches, a page past the last fails with 400 and names the page and the page count |
| `UniversityService.Build` | src/models/University.js:35-46 | a new record has the given id and creation time and `deletedAt` null; every supplied field is stored through its setter; absent ones take the defaults: `isBookmark` false, `isActive` true, `webpages` empty, and no name or country |
| `UniversityService.Create` | src/services/universityService.js:86-99 | failures are 400 (validation) or 409 (unique index); 400 exactly when name or country is empty, another record holds the name, or a webpage is not a URL; success exactly when, in addition, the id is free and no stored name equals the new one ignoring case; on success the record is the built one with `deletedAt` null and is added under its id |
| `UniversityService.CreateRejectsCaseVariant` | src/models/University.js:12-16 | creating a name that another record already holds after normalisation fails with 400 on the `name` path |
| `UniversityService.CreateIgnoresNameCase` | src/models/University.js:9-10 | creating with a lower-cased copy of the name gives the same outcome |
| `UniversityService.CreateIgnoresDeletedAt` | src/services/universityService.js:88 | a `deletedAt` in the request body has no effect on creation |
| `UniversityService.GetById` | src/services/universityService.js:102-120 | a malformed id gives 400, an absent one 404, otherwise the stored record |
| `UniversityService.UpdateById` | src/services/universityService.js:123-151 | malformed id gives 400, absent id 404, failures 400, 404 or 500; otherwise the outcome is that of the save. On success only that record changes: `deletedAt`, id and creation time stay, every supplied field is copied through the setters, name and country are non-empty, and a changed name is held by no other record, exactly or ignoring case |
| `UniversityService.ApplyAndSave` | src/services/universityService.js:138-150 | after copying the keys, the save fails with 400 exactly when name or country is empty, a changed name is held by another record, or supplied webpages are not all URLs; it fails with 500 exactly when only the case-insensitive index catches a changed name; otherwise it succeeds |
| `UniversityService.UpdateKeepsKeys` | src/services/universityService.js:140-144 | a successful update keeps every record under its own id |
| `UniversityService.UpdateCanReactivateDeletedRecord` | src/services/universityService.js:140-142 | a soft-deleted, inactive record can be made active by an update, so "deleted implies inactive" is not an invariant of update |
| `UniversityService.DeleteById` | src/services/universityService.js:154-174 | malformed id gives 400, absent id 404; otherwise only that record changes: it is stamped deleted at `now` and made inactive |
| `UniversityService.ToggleBookmarkById` | src/services/universityService.js:177-196 | malformed id gives 400, absent id 404; otherwise only that record changes: its bookmark is negated |
| `UniversityService.MalformedIdIgnoresStore` | src/services/universityService.js:104-108 | with a malformed id, get, update, delete and toggle give the same result for any collection, so no lookup decides it |
| `Auth.BearerTokenShape` | src/middleware/auth.js:15-21 | a header is accepted exactly when it is "Bearer", one space and a token without spaces, and the token is the text after that space |
| `Auth.LowerCaseSchemeRejected` | src/middleware/auth.js:16-20 | "bearer t" is rejected: the scheme is case-sensitive |
| `Auth.DoubleSpaceRejected` | src/middleware/auth.js:15-20 | "Bearer  t" splits into three parts and is rejected |
| `Auth.SingleSpaceAccepted` | src/middleware/auth.js:15-21 | "Bearer t" gives token "t" |
| `Auth.AuthJWT` | src/middleware/auth.js:6-33 | a missing or empty header gives 401 with no verification; a malformed one gives 401 with no verification; otherwise verification is called once, on exactly the token; its failure gives 401, and its success passes on the decoded payload |
| `Users.Register` | src/services/userService.js:6-14 | a taken username gives 409 and nothing is stored; a free one always succeeds: exactly `{username, password}` is added, the other accounts stay, and the created account is returned |
| `Users.Login` | src/services/userService.js:16-24 | an unknown user gives 401 with no calls; a wrong password gives 401 after exactly one comparison and no signing; success compares once and returns the token signed over the account id for "8h" |
| `Users.FailuresAreIndistinguishable` | src/services/userService.js:18-22 | an unknown user and a wrong password give the identical failure |

## Left out

- HTTP routing, request parsing and server bootstrap (src/controllers/, src/server.js) are transport. This includes the routers' required-field check. The university router is not mounted by the server, and the server installs its own catch-all handler.
- The count-then-slice race, and last-write-wins between concurrent saves, are concurrency. The listing reads one snapshot.
- Database connection, query-builder chaining and storage faults are left out. Storage faults would surface as 500.
- `JsText.Lower` maps only ASCII letters. JavaScript's `toLowerCase` and the index collation (`en`, strength 2) use full Unicode case rules. So case-insensitive comparison is modelled as ASCII lower-case equality.
- `Universities.ByCountry` treats a valid filter text as a plain substring. The source compiles it as a regular expression, so the meaning of metacharacters is not covered. Whether the text is a valid pattern is the parameter `isPattern`, and an invalid one fails the listing with 500.
- `Listing.NumberOr` uses unbounded integers. Above 2^53, `parseInt` loses precision. Query values that arrive as arrays or objects are also not modelled: each field is one string or absent.
- `Listing.BookmarkedFirst` breaks ties by the collection's natural order. MongoDB does not promise a stable sort.
- Date parsing, pattern validity, URL checking, id-format checking, JWT verification and signing, and password comparison are parameters. The model assumes nothing about them.
- `Universities.Store` looks ids up by exact string. `findById` casting, which accepts a 24-hex id in either letter case, is not modelled. Neither is the virtual hex `id` field, a serialisation detail.
- The `lastModified` timestamp is left out because storage maintains it. `created` is set to `now` on create and never changes.
- `UniversityService.Patch` covers only the schema's own fields with well-typed values. Unknown keys, `_id`, timestamp keys and values needing a cast (a CastError) are not modelled.
- `Universities.SoftDelete`, `Universities.Restore` and `Universities.ToggleBookmark` do not re-run the save-time required checks on the unchanged `name` and `country`. Every record stored through create or update passes them.
- `UniversityService.UpdateById` validates `webpages` when the request supplies them. Mongoose validates a path when it is marked modified, which differs only when the same invalid list is already stored.
- The `console.error` log line of `errorHandler` is left out because it is output only and does not affect the response.
- The name validator compares the found record's `_id` with the saved record's own. The model compares store keys, which is the same in a store where every record is filed under its own id.
- Error message texts are left out. Failures carry a cause with the numbers a message reports.
- The service-level `if (!university)` checks in delete and toggle are not modelled separately. They are unreachable because the statics already fail with 404.
- `restore` has no service wrapper in the source. It is modelled as the static only.
- Password hashing and account validation live in the User model, which is not part of this model. `Users.Register` stores what the service passes to `create`.
- `Auth.AuthJWT` returns the single argument passed to `next`. "next is called exactly once" holds by construction and is not a separate contract.
