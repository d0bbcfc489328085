# Newsletter viewer: record lookup and image resolution in Dafny

This project models the two pieces of logic behind the newsletter viewer's
`GET /newsletters/{id}?email=...` endpoint.

1. **The record store** (`get_newsletter_by_id_and_email`). The `newsletters` table is a map from
   primary key to record. The lookup selects the row whose id *and* email both equal the arguments.
   If that row is unread, the lookup sets `read` and commits. It then returns the row, or nothing.
   `DatabaseService.Lookup` is a function that states what one call returns and what table it leaves.
   `DatabaseService.NewsletterStore` is a class that holds the table. Its method
   `GetNewsletterByIdAndEmail` performs the update in place and is proved equal to `Lookup`.
2. **The request handler** (`view_newsletter`). This is a pure decision procedure:
   - a missing or empty email gives 400;
   - no matching row gives 404;
   - a database failure gives 500 "Internal server error".
   An `s3://` image reference goes through Python's `replace("s3://", "")` and `split("/", 1)`.
   Both are modelled exactly: every occurrence is deleted, the key is everything after the first
   `/`, and the bucket is dropped. A reference with no `/` left is kept unchanged. The key is sent to
   a presigning oracle. An empty or missing reply gives 500 "Failed to access image resource". Any
   other image URL passes through unchanged. The result is either the page fields or an HTTP error
   with its own status.

The database's failures, the clock and the storage service enter as parameters:
- `fault: StoreFault` is where, if anywhere, the database fails during the call;
- `now: Timestamp` is the database time that `updated_at`'s `onupdate` records;
- `presign: string -> Presigned` returns a value (`None` when the storage client reports a
  `ClientError`) or raises any other exception.

Modules:
- `Wrappers` (Option);
- `Models` (the record and the table, from `app/models/newsletter.py`);
- `Text` (the three string operations);
- `DatabaseService` (from `app/services/database_service.py`);
- `Routes` (from `newsletter-viewer/app/routes/newsletters.py`).

## Model

| member | source | states |
|---|---|---|
| `DatabaseService.FirstMatchIsOnlyMatch` | app/services/database_service.py:41-44 | because `id` is the primary key, the two equality filters select at most one row, and `first()` returns exactly that row (or nothing when none matches) |
| `DatabaseService.Lookup` | app/services/database_service.py:38-62 | with no fault, no error is raised; unless an error is raised, a row is returned iff id and email both match, whatever `read` was; a fault is reported (StoreError) exactly when the query fails, or when the commit fails while a change is pending; a returned row has the requested email and, with the primary key intact, the requested id; it is read, and it is the row now stored, with its other columns unchanged; marking a row read sets `updated_at` to the database's `now()` in the call's transaction, and an already-read row is returned exactly as stored; the returned row is expired (must be reloaded on access) exactly when the call committed; a wrong email on an existing id gives NotFound with the table untouched; no other row changes; the table changes exactly when an unread matching row is committed; `read` never goes from true back to false; a failed query or commit leaves the table as it was; the primary-key invariant is kept |
| `DatabaseService.LookupIdempotent` | app/services/database_service.py:46-50 | after a call that did not fail, repeating it with the same id and email writes nothing and returns the same row, now unexpired since nothing is committed |
| `DatabaseService.InsertedRowIsMarkedReadOnce` | app/services/database_service.py:46-50 | a newly inserted row (unread by the column default at app/models/newsletter.py:15) goes from unread to read exactly once: the first lookup commits it, returning it read with `updated_at` set to the database's `now()` in that call's transaction, and a second lookup writes nothing and returns the same row |
| `DatabaseService.WrongEmailIsIndistinguishable` | app/services/database_service.py:41-46 | an existing id with the wrong email answers the same as a table without that id, and leaves the table unchanged |
| `DatabaseService.NewsletterStore.GetNewsletterByIdAndEmail` | app/services/database_service.py:38-62 | the in-place update keeps the primary-key invariant; the outcome and the new table are exactly those of `Lookup` on the old table |
| `Text.StartsWith` | newsletter-viewer/app/routes/newsletters.py:37 | true iff the string is the prefix followed by something |
| `Text.RemoveAll` | newsletter-viewer/app/routes/newsletters.py:38 | `replace(pat, "")` never lengthens the string |
| `Text.RemoveAllWithoutOccurrence` | newsletter-viewer/app/routes/newsletters.py:38 | a string in which the pattern does not occur comes back unchanged |
| `Text.RemoveSchemeAround` | newsletter-viewer/app/routes/newsletters.py:38 | deleting "s3://" splits at any occurrence: the result for `a + "s3://" + b` is the result for `a` followed by the result for `b` |
| `Text.RemoveAllIsNotPrefixOnly` | newsletter-viewer/app/routes/newsletters.py:38 | every occurrence is deleted, not only the leading one: `"s3://" + bucket + "/s3://" + key` becomes `bucket + "/" + key` when neither part holds another "s3://" |
| `Text.NoSchemeWithoutSlash` | newsletter-viewer/app/routes/newsletters.py:38-39 | a string without `/` contains no "s3://", since "s3://" itself contains a `/` |
| `Text.IndexOf` | newsletter-viewer/app/routes/newsletters.py:38 | there is no index iff the character is absent; otherwise it is the first position of the character |
| `Text.SplitOnce` | newsletter-viewer/app/routes/newsletters.py:38 | `split(sep, 1)` gives one part (the whole string) iff `sep` is absent; otherwise two parts that rebuild the string around the first `sep` |
| `Text.SplitOnceAtFirst` | newsletter-viewer/app/routes/newsletters.py:38-40 | splitting `a + sep + b` where `a` has no `sep` gives exactly `[a, b]` |
| `Routes.ObjectKey` | newsletter-viewer/app/routes/newsletters.py:37-40 | a key exists iff the URL starts with "s3://" and a `/` remains after every "s3://" is deleted; the key is the text after the first such `/`, and the bucket before it is dropped |
| `Routes.ResolveImage` | newsletter-viewer/app/routes/newsletters.py:37-46 | with no object key, the URL is kept as it is; with a key, the result is resolved iff the oracle returns a non-empty URL, and it is then that URL; the result is an escaped exception iff the oracle raised |
| `Routes.ResolveImageConsultsOnlyKey` | newsletter-viewer/app/routes/newsletters.py:37-43 | the oracle is consulted only for the object key, so two oracles that agree on it resolve alike |
| `Routes.ViewNewsletter` | newsletter-viewer/app/routes/newsletters.py:24-66 | every status is one of 200/400/404/500; 400 iff the email is absent or empty, and then the table is untouched whatever the store or oracle would do; otherwise the table is what the lookup leaves; a database failure gives 500 "Internal server error"; 404 "Newsletter not found" iff the lookup finds nothing, and no other 404 is given; a matching row gives the 200 page with its id, content, email, creation time and resolved image URL when the image resolves, 500 "Failed to access image resource" when the presigner gives no usable URL, and 500 "Internal server error" when it raises; a page is rendered only for the row whose id and email match, carrying its content, its creation time and its resolved image URL |
| `Routes.ViewNewsletterAsWritten` | newsletter-viewer/app/routes/newsletters.py:24-66 | follows the handler's own steps (email check, lookup, 404, then the read of `image_url` from the returned record, which raises on an expired record of the closed session); derived from those steps: a request whose lookup commits answers 500 "Internal server error", while the table is still updated exactly as in the corrected handler; every request that commits nothing (a missing email, a fault, or a later view of a read row) is answered exactly as by the corrected handler |
| `Routes.FirstViewFailsAsWritten` | newsletter-viewer/app/routes/newsletters.py:35 | first view of an unread row with a direct image URL: as written it gives 500; corrected it gives the page with the URL unchanged; both leave the row marked read |
| `Routes.SecondViewRendersWithoutWrite` | app/services/database_service.py:46-53 | a second view of a matching newsletter writes nothing, and the row is read after the first; the two responses agree when the image needs no signing or both requests' presigners answer alike for its key (a fresh signature may differ) |
| `Routes.DirectImagePassesThrough` | newsletter-viewer/app/routes/newsletters.py:35-37 | an image URL that does not start with "s3://" resolves to itself, whatever the oracle |
| `Routes.BucketOnlyReferencePassesThrough` | newsletter-viewer/app/routes/newsletters.py:38-39 | `"s3://" + bucket` with no `/` in the bucket is kept unchanged, "s3://" included, and no signing happens |
| `Routes.StorageReferenceIsPresigned` | newsletter-viewer/app/routes/newsletters.py:38-43 | `"s3://" + bucket + "/" + key`, with no `/` in the bucket and no further "s3://" in the rest, is signed under `key` alone, and a non-empty presigned URL replaces the reference |
| `Routes.FailedPresignIs500` | newsletter-viewer/app/routes/newsletters.py:41-46 | when the oracle returns `None` or an empty URL, the answer is 500 "Failed to access image resource", and the row is still marked read |

## Left out

- Template rendering and the page's `current_time`: the Jinja engine and the wall clock. The
  `Rendered` response stops at the page fields; `created_at` is passed through unformatted.
- The presigned URL itself (client construction, credentials, signing, the 3600-second expiry):
  the `presign` oracle stands in for `get_s3_presigned_url`.
- The JSON body that the 404 handler in `newsletter-viewer/app/main.py` substitutes for the
  handler's `detail`. Its 500 handler sees only exceptions that escape the route, and
  `view_newsletter` lets none escape, so both 500 details reach the client. The root and health
  endpoints and startup are left out too. The model ends at the `HTTPException` that
  `view_newsletter` raises.
- Engine and session plumbing (`init_db`, `get_db_session`). The session is closed before it is
  returned, and `session` can be unbound in the error path. Neither changes the outcome: every
  database failure becomes `StoreFault` and ends in 500 with the table unchanged.
- Configuration loading from the environment, and the exception classes in `app/exceptions.py`,
  which the handler imports but never raises.
- The ORM mapping and uuid generation. Rows are values in a map, not live ORM objects, so the
  session's identity map and object aliasing are not modelled. Of the session's state, only
  whether the returned row was expired by the commit is kept (the `expired` flag of a found
  row); its consequence is recorded under Findings.
- Concurrency. Two requests racing between the read and the update are not modelled; each call
  is one sequential step.
- A storage reference is not always replaced by a different URL: one with no `/` after the
  scheme is kept unchanged, and otherwise the resolved URL is whatever the presigner returns.

## Findings

| source | as written | input that shows it | evidently intended | confidence | as-written member | corrected member |
|---|---|---|---|---|---|---|
| app/services/database_service.py:48-62 | The session uses SQLAlchemy's default `expire_on_commit=True`. The commit at line 50 therefore expires the row, and the `finally` close at line 62 detaches it. newsletters.py:35 then reads `image_url`, which would reload the row through a session it no longer has, so it raises. Lines 64-66 turn that into 500 "Internal server error". | An unread row `{id: "n1", email: "a@x.com", image_url: "https://cdn/x.png"}`, requested with `email=a@x.com` | Render the page (200) and mark the row read; later views already render | medium; not executed; depends on SQLAlchemy's documented session defaults | `Routes.ViewNewsletterAsWritten`, `Routes.FirstViewFailsAsWritten` | `Routes.ViewNewsletter` |
