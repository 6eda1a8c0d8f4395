# Agency site backend and landing page, modelled in Dafny

This project models the core of a small agency website:

- **Image rebase job** (`backend/src/scripts/fixImageUrls.js`). For every project and then every client, it rewrites a stored `imageUrl` that is set and not already absolute. It uses the configured `FILE_BASE_URL`, saves each record, and reports an exit status.
- **Image normaliser** (`backend/src/utils/crop.js`). It resizes an upload staged by multer to fixed dimensions next to the staged file. It then removes the staged file, on a best-effort basis, and returns a public path under `/uploads/`.
- **Clients router** (`backend/src/routes/clients.js`). It lists clients newest first, creates a client from a form plus an image, and deletes a client by id.
- **Landing page `buildImageUrl`** (`frontend/src/pages/Landing.tsx`). It turns a stored `imageUrl` into something the browser can load.
- **Login route** (`backend/src/routes/auth.js`). It validates the form, looks the administrator up, compares the password and signs a two-day token.
- **Subscriptions router** (`backend/src/routes/subscriptions.js`). Subscribing finds or creates a record for the email. The authenticated listing is newest first.
- **Server start-up** (`backend/src/server.js`). It connects to the store, seeds an administrator if none with the seed email exists, and then listens. It also holds the error-handling middleware that the routes' `next(err)` reaches.

## Module layout

Each module is one file:

| module | what it holds |
|---|---|
| `Wrappers` | `Option` and `Result` |
| `Keyed` | `findOne({email})` as the first record with a key, and the count of records with it |
| `Strings` | `startsWith` and `endsWith`; the `replace(/\/+$/, "")` idiom |
| `NodePath` | Node's POSIX `extname`, `basename(p, suffix)`, `dirname`, and the join used by the normaliser |
| `Http` | responses; express-validator's error entries, `notEmpty` and `isEmail`; the error handler |
| `Listing` | `find().sort("-createdAt")` |
| `Crop`, `Rebase`, `Clients`, `Landing`, `Auth`, `Subscriptions`, `Server` | one per core file |
| `Pipeline` | properties that cross components |

## How the model is written

State that the code changes in place is imperative Dafny:

- The rebase loop works on an `array` of records.
- The client, subscription and administrator tables are `class`es with a `seq` field.
- The filesystem is `Crop.Disk`, a class holding a `map` from path to image.

Each method is proved against a specification function, for example `Rebase.FixUntilFailure`, `Crop.AfterCrop`, `Subscriptions.SubscribeOutcome` or `Server.Seed`. The lemmas are stated about those functions.

Library calls are passed in as function parameters. These are bcrypt's `hash` and `compare`, `jwt.sign`, and express-validator's `isEmail`. Outcomes of I/O are passed in as parameters too:

- whether the store connection succeeds;
- whether each `save()` succeeds;
- whether the resize throws, and with which message;
- whether `unlink` succeeds;
- whether the insert fails;
- the current time;
- the id the store hands out for a new subscription or administrator.

The client store numbers its records itself: the field `nextId` stands for Mongo's id generation. It is handed to each new client and then incremented.

Environment variables are `Option<string>` parameters. JavaScript's `a || b` fallback is modelled as "absent or empty gives the default".

In three places the code does something other than what one might expect, and the model follows the code:

- **The rebase job stops at the first failing save.** It does not collect failures and carry on. That save rejects, the awaited `fix` rejects, and `run().catch` exits with status 1. The records after it in the same collection are not visited. If the failure is in the projects, no client is visited at all.
- **A failed resize leaves the staged file on disk.** The staged file is not cleaned up regardless of the outcome: the resize throws before `fs.unlink` is reached.
- **A create request without a file is answered 500, not 400.** `cropAndSave` throws "No file provided" (`backend/src/routes/clients.js:30`), and the error handler answers it with status 500 and that message (`backend/src/server.js:58`).

Behaviour that follows from the code as written, and that the lemmas make explicit:

- Node's `extname(".jpg")` is "", so with no original name the output is named `<filename>-cropped` and has no extension (`Crop.FallbackHasNoExtension`).
- Without `FILE_BASE_URL` and without a `Host` header, the base collapses to `<protocol>:`, for an http request `http:` (`Clients.MissingHostBase`).
- The landing page treats anything starting with "http" as absolute, while the rebase job requires a scheme (`Pipeline.AbsoluteTestsDiffer`).
- The job is idempotent when its stripped base is absolute (`Rebase.SecondRunIsNoOp`) and when it is empty, that is, a base of slashes only (`Rebase.SlashesOnlyBaseIdempotent`). With any other non-empty base, a value that is still relative after the pass is prefixed again (`Rebase.RelativeResultPrefixedAgain`). A non-absolute base of at least eight characters always leaves the value relative (`Rebase.SchemelessBasePrefixesAgain`).

## Model

| member | source | states |
|---|---|---|
| Strings.StripTrailingSlashes | backend/src/scripts/fixImageUrls.js:28 | The result is a prefix of the input, only slashes were removed, and it does not end in '/'. |
| Strings.StripTrailingSlashesUnique | backend/src/scripts/fixImageUrls.js:28 | Any prefix that does not end in '/' and is followed only by slashes is the stripped result. |
| Strings.StripTrailingSlashesIdempotent | backend/src/routes/clients.js:32 | Stripping twice is stripping once. |
| Strings.StripTrailingSlashesAppend | backend/src/scripts/fixImageUrls.js:28 | Appending slashes to a base does not change the stripped base. |
| NodePath.Extname | backend/src/utils/crop.js:8 | Node's `extname` of the last path component; characterised by `NodePath.ExtnameShape`, `NodePath.DotFileHasNoExtension` and `NodePath.ExtnameOfPhoto`. |
| NodePath.Basename | backend/src/utils/crop.js:9 | Node's `basename(p, suffix)`; characterised for the staged file names by `NodePath.BasenameOfPlainName`. |
| NodePath.Dirname | backend/src/utils/crop.js:10 | Node's `dirname`; `NodePath.JoinPathParts` shows it recovers the directory of a joined path. |
| NodePath.JoinPath | backend/src/utils/crop.js:10 | The directory and the name joined by one '/'; characterised by `NodePath.JoinPathParts`. |
| NodePath.ExtnameShape | backend/src/utils/crop.js:8 | An extension is "" or a '.' followed by characters other than '.' and '/', and the last path component ends with it. |
| NodePath.BasenameOfPlainName | backend/src/utils/crop.js:9 | For a name without '/', basename removes one trailing non-empty suffix when the name ends with it, and otherwise returns the name. |
| NodePath.DotFileHasNoExtension | backend/src/utils/crop.js:8 | `extname(".jpg")` is "". |
| NodePath.ExtnameOfPhoto | backend/src/utils/crop.js:8 | Only the last extension of "photo.final.png" is taken. |
| NodePath.JoinPathParts | backend/src/utils/crop.js:10 | Joining a directory and a plain name gives a path whose dirname is that directory and whose last component is that name. |
| NodePath.NoSlashComponent | backend/src/utils/crop.js:9 | A name without '/' is its own single component. |
| Http.HandleError | backend/src/server.js:56-59 | The status is the error's non-zero status or 500, and the message is its non-empty message or "Server error". Both iff's hold, and the reply never has status 0 or an empty message. |
| Keyed.FindFirst | backend/src/routes/auth.js:17 | `findOne`: the first record with the key, and nothing exactly when no record has it. |
| Keyed.CountZeroIffAbsent | backend/src/routes/subscriptions.js:12 | No record has the key exactly when the lookup finds nothing. |
| Keyed.CountAppend | backend/src/routes/subscriptions.js:14 | An appended record adds one to the count of its own key and changes no other count. |
| Keyed.FirstOfAppended | backend/src/routes/subscriptions.js:12-14 | In a table without the key, the lookup finds the appended record. |
| Listing.Insert | backend/src/routes/clients.js:12 | Inserting into a newest-first sequence keeps it newest first and adds exactly that record. |
| Listing.SortNewestFirst | backend/src/routes/clients.js:12 | The listing is newest first and is a permutation of the stored records. |
| Crop.SourceName | backend/src/utils/crop.js:8 | `originalname || ".jpg"`: never empty, and ".jpg" when the original name is absent or empty. |
| Crop.Ext | backend/src/utils/crop.js:8 | The extension of the source name; `Crop.FallbackHasNoExtension` shows it is "" for the fallback. |
| Crop.OutputName | backend/src/utils/crop.js:9 | The staged name less the extension, "-cropped", then the extension; characterised by `Crop.OutputNameOfPlainFilename` and `Crop.OutputNameIsPlain`. |
| Crop.OutputPath | backend/src/utils/crop.js:10 | The output name in the staged file's directory; characterised by `Crop.OutputBesideStagedInput`. |
| Crop.PublicPath | backend/src/utils/crop.js:17 | "/uploads/" followed by the output name; characterised by `Crop.OutputBesideStagedInput`. |
| Crop.Unlink | backend/src/utils/crop.js:15 | A successful unlink removes exactly that path; a failure is ignored; no other path changes. |
| Crop.AfterCrop | backend/src/utils/crop.js:12-15 | The output path holds an image of exactly the target size. The staged path survives only if the unlink failed. No other path changes. |
| Crop.CropAndSave | backend/src/utils/crop.js:5-19 | No file: fails with "No file provided" and writes nothing. Resize error: fails with that error and writes nothing, not even the unlink. Otherwise: returns "/uploads/" plus the output name, and the disk becomes `AfterCrop`. |
| Crop.OutputNameOfPlainFilename | backend/src/utils/crop.js:8-9 | The output name is the staged name less one trailing extension, then "-cropped", then the extension. |
| Crop.FallbackHasNoExtension | backend/src/utils/crop.js:8-9 | With no original name, the extension is "" and the output is `<filename>-cropped`. |
| Crop.OutputNameIsPlain | backend/src/utils/crop.js:9 | The output name is non-empty, has no '/', and ends with "-cropped" plus the extension. |
| Crop.OutputBesideStagedInput | backend/src/utils/crop.js:9-17 | The output is written in the staged file's directory under the output name, and the public path is "/uploads/" plus that same name. |
| Rebase.IsAbsolute | backend/src/scripts/fixImageUrls.js:26 | The job's test: the value starts with "http://" or "https://"; used by `Rebase.SkipsUnsetAndAbsolute` and `Rebase.FixedIsAbsolute`. |
| Rebase.NeedsFix | backend/src/scripts/fixImageUrls.js:24-27 | A record is rewritten exactly when its value is set, non-empty and not absolute; characterised by `Rebase.SkipsUnsetAndAbsolute` and `Rebase.RewriteShape`. |
| Rebase.RebaseUrl | backend/src/scripts/fixImageUrls.js:28 | The new URL starts with the stripped base and ends with the value, and is one character longer than both together unless the value starts with '/'. |
| Rebase.FixDoc | backend/src/scripts/fixImageUrls.js:24-29 | Looking at a record changes only its `imageUrl` among the modelled fields. |
| Rebase.FixAll | backend/src/scripts/fixImageUrls.js:21-33 | A full pass treats every record independently and keeps the length. |
| Rebase.FirstFailure | backend/src/scripts/fixImageUrls.js:21-33 | Every attempted save before the returned index succeeds, and the save at that index, if any, is attempted and fails. |
| Rebase.FixUntilFailure | backend/src/scripts/fixImageUrls.js:21-33 | The collection after a pass: the records before the first failing save are fixed, and that record and all later ones are as stored. |
| Rebase.Completes | backend/src/scripts/fixImageUrls.js:21-33 | A pass completes exactly when every record that needs a rewrite saves successfully. |
| Rebase.FixCollection | backend/src/scripts/fixImageUrls.js:21-33 | The loop leaves the array as `FixUntilFailure`: records before the first failing save are rewritten, and that record and the later ones are untouched. It returns whether the pass completed. |
| Rebase.Base | backend/src/scripts/fixImageUrls.js:9 | `FILE_BASE_URL || ""`; `Rebase.Run` exits with 1 when it is empty. |
| Rebase.Configured | backend/src/scripts/fixImageUrls.js:9-17 | Both `FILE_BASE_URL` and `MONGO_URI` are set and non-empty; `Rebase.Run` touches nothing without it. |
| Rebase.Run | backend/src/scripts/fixImageUrls.js:8-44 | A missing base or `MONGO_URI`, or a failed connection: exit 1 and nothing written. Otherwise the projects are fixed, then the clients only if the projects completed. The exit is 0 exactly when both collections completed. |
| Rebase.SkipsUnsetAndAbsolute | backend/src/scripts/fixImageUrls.js:25-27 | Unset, empty, "http://" and "https://" values are left as they are. |
| Rebase.RewriteShape | backend/src/scripts/fixImageUrls.js:28 | A rewritten value is the stripped base, exactly one '/', then the value without its leading '/'. |
| Rebase.SlashesNormalised | backend/src/scripts/fixImageUrls.js:28 | A trailing '/' on the base and a leading '/' on the value give the same URL as neither. |
| Rebase.FixedIsAbsolute | backend/src/scripts/fixImageUrls.js:26-28 | With an absolute base, no rewritten record needs fixing again. |
| Rebase.SecondRunIsNoOp | backend/src/scripts/fixImageUrls.js:21-33 | With an absolute base, a second pass over a complete first pass saves nothing, cannot fail and changes nothing. |
| Rebase.NothingToFix | backend/src/scripts/fixImageUrls.js:21-33 | A collection with nothing to rewrite always completes. |
| Rebase.AllSavesSucceed | backend/src/scripts/fixImageUrls.js:21-33 | When every save succeeds, the pass completes and rewrites the whole collection. |
| Rebase.SchemelessBasePrefixesAgain | backend/src/scripts/fixImageUrls.js:26-28 | With a non-absolute stripped base of at least eight characters, a rewritten value is relative again, and a second pass changes it again. |
| Rebase.SlashesOnlyBaseIdempotent | backend/src/scripts/fixImageUrls.js:9-28 | A base of slashes only (which passes the configuration check) strips to "", and a second pass changes nothing. |
| Rebase.RelativeResultPrefixedAgain | backend/src/scripts/fixImageUrls.js:26-28 | With a non-empty stripped base, a rewritten value that is still relative is changed again by a second pass. |
| Rebase.HttpPrefixedNameIsRelative | backend/src/scripts/fixImageUrls.js:26 | "httpfoo.jpg" is relative to the job and gets the base prepended. |
| Rebase.CdnScenario | backend/src/scripts/fixImageUrls.js:26-29 | "/uploads/x.jpg" against "https://cdn.example.com" becomes "https://cdn.example.com/uploads/x.jpg", and a second pass leaves it unchanged. |
| Clients.FormErrors | backend/src/routes/clients.js:23-28 | There are no errors exactly when name, designation and description are all present and non-empty. Each field has an entry exactly when it fails. |
| Clients.ResolveBase | backend/src/routes/clients.js:31-32 | The resolved base never ends in '/'. |
| Clients.ImageUrl | backend/src/routes/clients.js:33 | The base followed by the public path; characterised by `Clients.ImageUrlShape`. |
| Clients.Staged | backend/src/routes/clients.js:22 | Multer's staging: the upload, if any, is on disk at its path; `Clients.ClientStore.Create` leaves it there when validation fails. |
| Clients.CropAndInserted | backend/src/routes/clients.js:30-43 | The specification of `Clients.ClientStore.CropAndInsert` for each of: no file, failed resize, failed insert, success. |
| Clients.ClientStore.List | backend/src/routes/clients.js:10-17 | Status 200 with every stored client, newest first. |
| Clients.ClientStore.Create | backend/src/routes/clients.js:19-45 | Unauthenticated: 401 and nothing changes. Invalid form: 400 with the field errors; the staged upload stays on disk and the table is unchanged. Otherwise the outcome is `CropAndInserted` for the resolved base. The id counter advances by one exactly when a client is appended. The id invariant is kept. |
| Clients.ClientStore.CropAndInsert | backend/src/routes/clients.js:30-43 | No file: 500 "No file provided". Resize error: the error handler's reply, and nothing is written. Otherwise the image is written and the staged file unlinked. Then either the client, with URL base + public path, is appended and answered with 201, or the failed insert is answered through the error handler. The id counter advances by one exactly when the client is appended. |
| Clients.ClientStore.Delete | backend/src/routes/clients.js:47-54 | Unauthenticated: 401. Otherwise 200 `{success: true}` whether or not the id existed. The table loses exactly the records with that id, and at most one record. |
| Clients.WithoutId | backend/src/routes/clients.js:49 | A record remains exactly when it was stored and has another id. A table without that id is unchanged. |
| Clients.WithoutIdKeepsIds | backend/src/routes/clients.js:49 | Deleting keeps the ids unique and below the next free id. |
| Clients.DeleteRemovesAtMostOne | backend/src/routes/clients.js:49 | With unique ids, a delete by id removes at most one record. |
| Clients.DeleteIdempotent | backend/src/routes/clients.js:47-54 | Deleting twice is deleting once. |
| Clients.ConfiguredBaseWins | backend/src/routes/clients.js:31-32 | A non-empty `FILE_BASE_URL` decides the base whatever the request's protocol and host. |
| Clients.ImageUrlShape | backend/src/routes/clients.js:31-33 | The stored URL is the base followed by "/uploads/", with no doubled '/' at the seam. |
| Clients.RequestDerivedBase | backend/src/routes/clients.js:31-32 | Without `FILE_BASE_URL`, a host header gives a base that starts with `protocol://`. |
| Clients.MissingHostBase | backend/src/routes/clients.js:31-32 | For an http request without `FILE_BASE_URL` and without a host header, the base is "http:". |
| Landing.StripApiSuffix | frontend/src/pages/Landing.tsx:314 | Removes exactly one trailing "/api/" or "/api", and otherwise changes nothing. |
| Landing.ApiOrigin | frontend/src/pages/Landing.tsx:314 | `VITE_API_URL` or the default, less one trailing "/api"; characterised by `Landing.StripApiSuffix`, `Landing.DefaultOrigin` and `Landing.OneApiSuffixRemoved`. |
| Landing.BuildImageUrl | frontend/src/pages/Landing.tsx:311-316 | The result is "" exactly for "". A value starting with "http" is returned as it is. The result always ends with the stored value. |
| Landing.DefaultOrigin | frontend/src/pages/Landing.tsx:314 | Without `VITE_API_URL` the origin is "http://localhost:4000". |
| Landing.OneApiSuffixRemoved | frontend/src/pages/Landing.tsx:314 | Only one "/api" is removed. |
| Landing.RelativeJoin | frontend/src/pages/Landing.tsx:315 | A relative value is the origin plus the value, with one '/' added unless the value starts with '/'. |
| Landing.HttpPrefixedNameUnchanged | frontend/src/pages/Landing.tsx:313 | "httpfoo.jpg" is returned unchanged. |
| Auth.Secret | backend/src/routes/auth.js:23 | The signing secret is never empty, and it is "devsecret" when none is configured. |
| Auth.LoginErrors | backend/src/routes/auth.js:11-15 | There are no errors exactly when the email passes `isEmail` and the password is non-empty. |
| Auth.FindByEmail | backend/src/routes/auth.js:17 | `Keyed.FindFirst` keyed on the email: the first stored user with that email, and nothing exactly when there is none. |
| Auth.ClaimsFor | backend/src/routes/auth.js:21-25 | The token carries the user's id and email and expires 172800 seconds after it is issued. |
| Auth.Login | backend/src/routes/auth.js:9-31 | 400 exactly when validation fails. 401 "Invalid credentials" exactly when the user is unknown or the password does not match. Otherwise 200: the user the lookup returns matched the password, and the reply holds that user's email and a token signed over its claims with the configured secret. |
| Auth.ValidationBeforeLookup | backend/src/routes/auth.js:14-15 | A failed validation answers the same whatever the table, the comparison and the signer. |
| Auth.FailuresIndistinguishable | backend/src/routes/auth.js:18-20 | An unknown email and a wrong password give the same 401 reply. |
| Auth.CompareOnlyWhenFound | backend/src/routes/auth.js:17-19 | For an unknown email the comparison has no effect. |
| Auth.SuccessfulLogin | backend/src/routes/auth.js:21-26 | With no configured secret, a matching login gets a token signed with "devsecret" over the stored id and email. |
| Subscriptions.FindByEmail | backend/src/routes/subscriptions.js:12 | `Keyed.FindFirst` keyed on the email: the first stored subscription for that email, and nothing exactly when there is none. |
| Subscriptions.SubscribeOutcome | backend/src/routes/subscriptions.js:8-19 | 400 exactly for an invalid email. 200 with a stored record for the email, the table unchanged. 201 exactly when the email is new, with one new record appended. |
| Subscriptions.SubscriptionTable.Subscribe | backend/src/routes/subscriptions.js:8-19 | The table and reply after the call are `SubscribeOutcome` of the table before it. |
| Subscriptions.SubscriptionTable.List | backend/src/routes/subscriptions.js:21-28 | Unauthenticated: 401. Otherwise 200 with every subscription, newest first. |
| Subscriptions.SubscribeAddsAtMostOne | backend/src/routes/subscriptions.js:12-15 | A valid subscribe leaves exactly one record for a new email, and leaves every other email's count alone. |
| Subscriptions.SubscribeTwice | backend/src/routes/subscriptions.js:12-15 | A second subscribe with the same email changes nothing and answers 200 with the record the first created. |
| Server.SeedEmail | backend/src/server.js:74 | `ADMIN_EMAIL || "admin@example.com"`: never empty, and the default when unset or empty. |
| Server.SeedPassword | backend/src/server.js:75 | `ADMIN_PASSWORD || "admin123"`: never empty, and the default when unset or empty. |
| Server.Seed | backend/src/server.js:73-81 | Afterwards an administrator with the seed email exists and the old table is a prefix of the new one. Exactly one record, holding `hash(password)`, is added exactly when the email was absent. |
| Server.AdminTable.EnsureAdminUser | backend/src/server.js:73-81 | The table after the call is `Seed` of the table before it. |
| Server.Start | backend/src/server.js:61-71 | A failed connection or a failed seed exits with 1. Otherwise the administrator is seeded and the server listens. |
| Server.SeedIdempotent | backend/src/server.js:76-77 | Seeding twice is seeding once, for any table and any ids. |
| Server.SeedLeavesOne | backend/src/server.js:76-79 | Seeding a table without an administrator for the seed email leaves exactly one for it. |
| Server.SeedDefaults | backend/src/server.js:74-75 | Unconfigured, seeding an empty table stores "admin@example.com" with the hash of "admin123". |
| Pipeline.SeededAdminCanLogin | backend/src/server.js:73-81 | The default seeded administrator logs in with the default credentials and gets a token over its id and email. |
| Pipeline.CreatedUrlSurvivesRebase | backend/src/scripts/fixImageUrls.js:26-27 | A client URL built with an absolute `FILE_BASE_URL` is never changed by the job, whatever the job's own base. |
| Pipeline.RebasedUrlShownAsStored | frontend/src/pages/Landing.tsx:313 | A URL the job rewrote against an absolute base is shown by the landing page exactly as stored. |
| Pipeline.AbsoluteTestsDiffer | frontend/src/pages/Landing.tsx:313 | "httpfoo.jpg" is shown unchanged by the landing page but prefixed by the job. |

## Left out

- `backend/src/middleware/auth.js` (`requireAuth`) and `backend/src/utils/upload.js` (multer) are not part of this model:
  - Authentication is a boolean verdict, answered with 401.
  - The staged upload, with its path, generated name and image, is an input.
  - Multer's size and type limits are not modelled.
- `NodePath.JoinPath` is `dir + "/" + name`. `path.join`'s normalisation of ".", ".." and repeated '/' is not modelled. The lemmas about the output location assume a staged directory without a trailing '/'.
- The resize itself (sharp's cover crop, formats and pixel data) is not modelled. Only the output's dimensions, or the library's thrown message, are modelled.
- Process-level effects are not modelled: console logging, the job's "Updated …" lines, and `dotenv` loading. The process exit (`process.exit`) becomes a returned status.
- The database is a sequence of records:
  - `createdAt` timestamps are parameters. Subscription and administrator ids are parameters too, and client ids come from the client store's own counter.
  - Mongoose's `trim: true` and `lowercase: true` setters are not modelled. So neither the whitespace-only name that passes `notEmpty` and then fails the schema, nor case-insensitive email lookup, is captured.
  - The unique index on emails is not modelled.
  - Interleaving of concurrent requests is not modelled.
- Mongoose's `timestamps: true` is not modelled. A rebase save also sets `updatedAt`, and the record here has no such field. `Rebase.FixDoc` promises that the other modelled fields are kept, not that every stored field is.
- Crop.CropAndSave: `fs.unlink` is not awaited. The staged file may still exist when the response is sent, but the model applies the unlink before returning.
- The order of records with equal `createdAt` in the listings is unspecified by the store. `Listing.SortNewestFirst` fixes one order; its contract promises only the newest-first order and the permutation.
- The `/uploads` static route, CORS, helmet, the rate limiter, the health route, and the projects and contacts routers are outside the modelled core.
- Token verification and expiry checking happen in the authentication middleware and are not modelled. Only the claims signed at login are.
- Bcrypt's hashing and comparison are given functions; the salt rounds are not modelled.
- Rendering of the landing page, other than `buildImageUrl`, is not modelled.
- Clients.ClientStore.Delete: ids are naturals. A malformed id, which Mongoose fails to cast and the error handler answers with 500, is not modelled. A failing delete query is not modelled either.
- Clients.ClientStore.List: a failing query (passed to the error handler) is not modelled; the listing always answers 200.
- Subscriptions.SubscriptionTable.Subscribe: a failing lookup or insert, including a unique-index conflict, is not modelled.
- Subscriptions.SubscriptionTable.List: a failing query is not modelled.
- Auth.Login: a failing lookup or comparison, passed to the error handler, is not modelled.
- Rebase.Run: `Model.find()` failing for a collection is modelled only through the connection outcome. A failure while loading one collection after a successful connection is not separate.
