# Hydra backend: release patcher, image-URL rewriting and token gating

This project models three parts of the Hydra launcher backend and proves
properties of the model.

- **The release patcher** (`tools/patcher/patch-hydra.js`). It finds an
  installed launcher's `app.asar` archive and backs the archive up once. It
  extracts the archive into a scratch directory. In every `.js`/`.mjs` file
  it replaces the known production and staging backend URLs with the
  configured ones, role by role. Then it repacks the archive. It can also put
  the backed-up archive back.
  - The filesystem is a value (`FileSystem.Fs`: files, directories, extracted
    trees) held by a `FileSystem.Disk` object that the methods update.
  - The asar library is a pair of function parameters, `extract` and `pack`.
  - `main` is a method whose every exit and final disk state is tied to a
    specification function, `Patcher.MainSpec`.
  - An exit status is `Patcher.ExitCode`. Exceptions are `Outcome.Thrown`.
- **The response URL rewriters.** These are `formatResponse` in
  `src/routes/games.js` and `src/routes/catalogue.js`. Both work over one JSON
  datatype and prefix the CDN origin `https://cdn.losbroxas.org` to relative
  URLs (strings starting with `/`).
  - The games version rewrites fifteen image keys and `screenshots` entries,
    and recurses into nested plain objects. It is a method with loops, proved
    equal to a field-by-field specification.
  - The catalogue version rewrites three keys and string screenshots, and
    does not recurse. It is a pure function.
- **The authentication middleware** (`src/middleware/auth.js`).
  - Token selection and the accept/reject decision are pure functions.
  - `authMiddleware` and `optionalAuth` are methods on an `Auth.Exchange`
    object. The object holds the request's `userId`, the reply sent and how
    often `next` was called.
  - JWT verification is a function parameter from the token text to an
    optional payload.

### Behaviour taken from the code

Where a plain reading of the patcher's documentation would suggest otherwise,
the model follows the code:

- **Restore exit code.** A restore run with no backup prints an error and
  returns normally, so it exits with status 0 (`RestoreDone(false)`), not 1.
- **Uncaught copy failure.** A copy failure while backing up or restoring is
  not caught by `main`'s `try`. `main().catch(console.error)` absorbs it, so
  it also exits with status 0 (`Crashed`).
- **Patching twice is not always a no-op.** Under the default configuration
  the WebSocket target `ws://localhost:3001/ws` ends with `ws`. Take the
  content `wss://ws.hydralauncher.ggs://ws.hydralauncher.gg`. The first pass
  replaces the leading pattern and gives
  `ws://localhost:3001/wss://ws.hydralauncher.gg`. That output contains
  `wss://ws.hydralauncher.gg` again, so a second pass reports one more change (`ContentPatch.WsDefaultNotIdempotent`).
  The default auth target `http://localhost:3001/auth` ends in `h`, the first
  letter of every `https` pattern. So the same can happen there: in
  `https://auth.hydralauncher.ggttps://api.hydralauncher.gg` the auth step
  creates `https://api.hydralauncher.gg` after the API steps have already
  run, and a second pass reports one more change. The model does not state
  this second case as a lemma.
  The model proves idempotence for configurations where no known pattern
  overlaps a target (`ContentPatch.PatchIdempotent`).
- **Null screenshot entry.** In the games route, a `null` entry in
  `screenshots` makes `formatResponse` throw (`typeof null` is `'object'`,
  and the code then reads `null.url`). The model gives `None` there
  (`GamesRoute.NullShotThrows`).

## Model

| member | source | states |
|---|---|---|
| Catalog.DefaultConfig | tools/patcher/patch-hydra.js:25-33 | every target built from the environment is non-empty, and the assets role is switched on exactly when `ASSETS_URL` is set to a non-empty value (the `if (config.assetsUrl)` gate) |
| Catalog.DefaultTarget | tools/patcher/patch-hydra.js:26-32 | each role's target is its own variable when that is set and non-empty, and otherwise the built-in fallback |
| Catalog.OverrideOwnRole | tools/patcher/patch-hydra.js:26-32 | setting one role's variable changes no other role's target, and switches the assets role only when it is `ASSETS_URL` |
| Catalog.KnownPatterns | tools/patcher/patch-hydra.js:40-82 | four patterns each for the API, auth and Nimbus roles, two for the others, none of them empty |
| Catalog.PatternsNonEmpty | tools/patcher/patch-hydra.js:40-82 | no known pattern is the empty string, so every split/join replacement is well defined |
| Catalog.HttpsPatterns | tools/patcher/patch-hydra.js:40-82 | every known pattern of a role other than WebSocket is an `https` URL, so it contains the letter `p` |
| ContentPatch.DefaultsValue | tools/patcher/patch-hydra.js:25-33 | with an empty environment the configuration is the documented localhost targets and no assets target |
| ContentPatch.StepsByRole | tools/patcher/patch-hydra.js:224-290 | the roles are tried in the fixed order API, auth, WebSocket, Nimbus, checkout, assets |
| ContentPatch.PatchContent | tools/patcher/patch-hydra.js:219-293 | the loop over roles and patterns returns the left fold of one step per pattern (`Patch`) |
| ContentPatch.PatchRole | tools/patcher/patch-hydra.js:225-233 | one role's loop: found patterns are counted, recorded and, unless dry-run, replaced everywhere |
| ContentPatch.RunConcat | tools/patcher/patch-hydra.js:219-293 | running the pattern steps in two halves is running them all |
| ContentPatch.DryRunLeavesContent | tools/patcher/patch-hydra.js:228-230 | a dry run returns the content unchanged |
| ContentPatch.DryRunKeeps | tools/patcher/patch-hydra.js:228-230 | in dry-run no step rewrites the content |
| ContentPatch.DryRunFinds | tools/patcher/patch-hydra.js:226-231 | a dry run records exactly the patterns that occur in the original content, in order |
| ContentPatch.DryRunReport | tools/patcher/patch-hydra.js:219-293 | a dry run's report is the list of patterns found in the input and its count is that list's length |
| ContentPatch.FoundBounded | tools/patcher/patch-hydra.js:226-231 | at most one change per pattern, however often it occurs |
| ContentPatch.FoundBySet | tools/patcher/patch-hydra.js:226 | which patterns are reported depends only on which patterns occur, not on how many times they occur |
| ContentPatch.RunCounts | tools/patcher/patch-hydra.js:226-231 | the count always equals the number of recorded changes, which only grow, by at most one per step |
| ContentPatch.CountMatchesChanges | tools/patcher/patch-hydra.js:226-231 | `changeCount` is the length of `changes` and at most the number of active patterns |
| ContentPatch.RunUncounted | tools/patcher/patch-hydra.js:226-231 | the count never drops, and steps that count nothing leave the content unchanged |
| ContentPatch.NoChangeNoRewrite | tools/patcher/patch-hydra.js:219-293 | a result reporting zero changes returns the content unchanged |
| ContentPatch.RunOverClean | tools/patcher/patch-hydra.js:226 | steps over content holding none of their patterns change nothing and count nothing |
| ContentPatch.RunAvoidsRole | tools/patcher/patch-hydra.js:280-290 | steps of other roles never record a change for a given role |
| ContentPatch.AssetsSkippedWhenUnset | tools/patcher/patch-hydra.js:280-290 | with no (or an empty) assets target, assets patterns are never tried, counted or replaced, and the result is the same as with no assets target |
| ContentPatch.AssetsTriedLastWhenSet | tools/patcher/patch-hydra.js:280-290 | with an assets target its two patterns are the last two steps |
| ContentPatch.RunCleans | tools/patcher/patch-hydra.js:229 | when no pattern overlaps a target, a non-dry run leaves no active pattern anywhere in the output |
| ContentPatch.PatchIdempotent | tools/patcher/patch-hydra.js:219-293 | under that no-overlap condition, patching the output again reports no change and returns it unchanged |
| ContentPatch.NonDryFinds | tools/patcher/patch-hydra.js:226-231 | over steps whose patterns cannot overlap each other or any target, a non-dry run records exactly the patterns of the original content, and each later pattern is present in the rewritten content exactly when it was in the original |
| ContentPatch.NonDryCountsAsDry | tools/patcher/patch-hydra.js:219-293 | under that condition a non-dry run reports the same changes and count as a dry run |
| ContentPatch.WsChars | tools/patcher/patch-hydra.js:28-62 | neither the production WebSocket pattern nor the default ws target contains `p` or `i`; the staging WebSocket pattern contains `i` |
| ContentPatch.WsDefaultNotIdempotent | tools/patcher/patch-hydra.js:247-255 | with the default ws target, patching `wss://ws.hydralauncher.gg` followed by `s://ws.hydralauncher.gg` reports one change and re-creates the pattern, so a second pass reports one more |
| Text.IndexOf | tools/patcher/patch-hydra.js:226 | the first occurrence at or after a position, or none anywhere after it |
| Text.Split | tools/patcher/patch-hydra.js:229 | `split` gives at least one part and no part contains the separator |
| Text.SplitJoin | tools/patcher/patch-hydra.js:229 | joining the parts of a split with the separator gives back the string |
| Text.SplitAbsent | tools/patcher/patch-hydra.js:226-229 | splitting at an absent separator gives the whole string as the only part, and only then |
| Text.ReplaceAllRemoves | tools/patcher/patch-hydra.js:229 | split-then-join leaves no occurrence of the pattern when pattern and target cannot overlap |
| Text.ReplaceAllKeepsAbsent | tools/patcher/patch-hydra.js:229 | a string absent from the content that cannot overlap the target is still absent after a replacement |
| Text.ReplaceAllKeepsPresent | tools/patcher/patch-hydra.js:229 | an occurrence of a string that no copy of the pattern can overlap survives a replacement |
| Text.ReplaceAllLeading | tools/patcher/patch-hydra.js:229 | a pattern followed by a shorter tail is replaced once, at the front |
| Text.ReplaceAllChars | tools/patcher/patch-hydra.js:229 | a character absent from the content and the target is absent from the result |
| ScratchTree.Lookup | tools/patcher/patch-hydra.js:309-310 | finds the first entry with the name, or says none has it |
| ScratchTree.PutThenRead | tools/patcher/patch-hydra.js:337 | after writing a file, reading it gives the written text |
| ScratchTree.PutElsewhere | tools/patcher/patch-hydra.js:337 | writing one file leaves every other path as it was |
| ScratchTree.ListedBelow | tools/patcher/patch-hydra.js:306-318 | every listed path lies below the directory being walked |
| ScratchTree.ListedIffScript | tools/patcher/patch-hydra.js:306-318 | a path is listed exactly when it names a file whose name ends in `.js` or `.mjs`, at any depth (both directions) |
| ScratchTree.ListedOnce | tools/patcher/patch-hydra.js:306-318 | no file is listed twice |
| ScratchTree.FindJsFiles | tools/patcher/patch-hydra.js:306-318 | the recursive walk appends exactly the listing of script files to what was collected before |
| FileSystem.Disk.constructor | tools/patcher/patch-hydra.js:19 | a disk starts in the given state |
| FileSystem.Disk.CopyFileSync | tools/patcher/patch-hydra.js:197 | a copy succeeds only from an existing file onto a non-directory, and then changes only the destination |
| FileSystem.Disk.ExtractAll | tools/patcher/patch-hydra.js:301 | extraction puts the archive's tree at the scratch directory and changes no file |
| FileSystem.Disk.ReadFileSync | tools/patcher/patch-hydra.js:328 | reading gives the file's text in the tree |
| FileSystem.Disk.WriteFileSync | tools/patcher/patch-hydra.js:337 | writing replaces that one file in the tree |
| FileSystem.Disk.CreatePackage | tools/patcher/patch-hydra.js:352 | packing writes the packed tree to the archive path, or changes nothing when packing fails |
| FileSystem.Disk.RmSync | tools/patcher/patch-hydra.js:361 | a forced recursive remove deletes whatever is at the path |
| Patcher.FirstExisting | tools/patcher/patch-hydra.js:183-189 | the first candidate that exists, with none before it existing; none exactly when no candidate exists |
| Patcher.FindAsarPath | tools/patcher/patch-hydra.js:175-190 | probes `resources/app.asar`, `Resources/app.asar`, `app.asar` in that order and returns the first that exists |
| Patcher.Located | tools/patcher/patch-hydra.js:177-189 | a found archive is one of the three candidates, exists, and no earlier candidate exists |
| Patcher.OwnPathsApart | tools/patcher/patch-hydra.js:177-181 | an archive, its backup and its scratch directory are three different paths, none of them the install path |
| Patcher.OtherPathsApart | tools/patcher/patch-hydra.js:177-181 | one candidate's backup and scratch directory are never another candidate's archive |
| Patcher.CreateBackup | tools/patcher/patch-hydra.js:192-203 | the archive is copied to `<archive>.backup` only when nothing is there yet; an existing backup is left as it is |
| Patcher.RestoreBackup | tools/patcher/patch-hydra.js:205-217 | with a backup, the archive gets the backup's bytes and the result is true; without one, nothing changes and the result is false |
| Patcher.ScanFiles | tools/patcher/patch-hydra.js:324-341 | the loop over the listed files leaves the tree and total of the scan fold, and changes no file outside the scratch tree |
| Patcher.ScanOne | tools/patcher/patch-hydra.js:328-340 | one iteration reads the file, patches it, writes it back only when something was found and not dry-run, and adds its count |
| Patcher.ReadableWhileScanning | tools/patcher/patch-hydra.js:327-328 | every listed file can still be read when the loop reaches it |
| Patcher.ScanEffect | tools/patcher/patch-hydra.js:327-341 | after the scan each listed file is rewritten only if its count is positive and not dry-run, every other path is unchanged, and the total is the sum of the counts |
| Patcher.ScanFileEffect | tools/patcher/patch-hydra.js:328-340 | one file of the scan: only it is rewritten, with its patched text unless dry-run, and its count is added to the total |
| Patcher.PatchAsar | tools/patcher/patch-hydra.js:295-364 | `patchAsar` returns and leaves what its specification `PatchAsarSpec` gives |
| Patcher.ScanAndRepack | tools/patcher/patch-hydra.js:303-361 | after extraction: list the script files, scan them, repack only on a non-dry run with changes, and remove the scratch directory |
| Patcher.PatchAsarEffect | tools/patcher/patch-hydra.js:295-364 | exactly the script files are patched, none in dry-run; the total is the sum of their counts; it throws exactly when a non-dry run with changes cannot pack; otherwise it repacks only on a non-dry run with changes, and removes the scratch directory |
| Patcher.PatchAsarKeeps | tools/patcher/patch-hydra.js:295-364 | `patchAsar` changes no file but the archive and the scratch directory |
| Patcher.RestoreIsTerminal | tools/patcher/patch-hydra.js:409-412 | a restore run exits with status 0, makes no backup and extracts nothing; without a backup it changes nothing, with one the archive gets the backup's bytes |
| Patcher.DryRunTouchesNothing | tools/patcher/patch-hydra.js:414-419 | a dry run changes no file and creates no backup |
| Patcher.PatchRunBacksUp | tools/patcher/patch-hydra.js:414-419 | a patch run keeps an existing backup, or else leaves a copy of the archive as it was, and fails there only when that copy fails |
| Patcher.PatchHydra | tools/patcher/patch-hydra.js:366-434 | `main` ends with the exit and disk state that `MainSpec` gives: path checks, then restore-and-stop, or backup (unless dry-run) and `patchAsar` |
| PatcherRuns.MainFootprint | tools/patcher/patch-hydra.js:366-434 | one run writes only the found archive, its backup and its scratch directory, and never changes an existing backup |
| PatcherRuns.StillLocated | tools/patcher/patch-hydra.js:175-190 | a run keeps the install path and the archive found the same |
| PatcherRuns.RunKeepsSettled | tools/patcher/patch-hydra.js:366-434 | any later run (patch, dry or restore, any targets) keeps the archive found and the backup's bytes |
| PatcherRuns.FirstPatchSettles | tools/patcher/patch-hydra.js:414-419 | the first patch run without a backup leaves a backup holding the original archive |
| PatcherRuns.SettledAfterFirstPatch | tools/patcher/patch-hydra.js:192-203 | after a first patch run and any number of further runs, the backup still holds the archive from before the first run |
| PatcherRuns.RestoreAfterRuns | tools/patcher/patch-hydra.js:192-217 | after those runs a restore succeeds and gives the archive back its bytes from before the first patch run |
| JsonValues.Rewrite | src/routes/games.js:20-25 | what `rewrite` returns is never a relative URL |
| JsonValues.RewriteMeaning | src/routes/games.js:20-25 | `rewrite` changes exactly the relative URLs, each into the CDN origin followed by the path; the result is never relative, so a second rewrite changes nothing; truthiness and kind are kept |
| JsonValues.RewriteKeysEffect | src/routes/games.js:42-46 | the image-key loop keeps the keys, rewrites a truthy value under a listed key and leaves every other field as it was |
| GamesRoute.FormatResponse | src/routes/games.js:16-68 | `formatResponse` returns the field-by-field specification `Games`, or `None` exactly where the code throws |
| GamesRoute.RewriteFields | src/routes/games.js:33-55 | the image-key loop and the screenshots step give each field its rewritten value, and fail exactly on a `null` screenshot |
| GamesRoute.RewriteImageKeys | src/routes/games.js:42-46 | the loop over the fifteen image keys gives the fold `RewriteKeys`, whose effect `RewriteKeysEffect` states |
| GamesRoute.MapShots | src/routes/games.js:49-55 | the screenshots loop rewrites each entry, and fails exactly when an entry is `null` |
| GamesRoute.FormatNested | src/routes/games.js:58-62 | the loop over keys formats each nested plain object, and fails exactly when one of them fails |
| GamesRoute.PlainKeepsObjects | src/routes/games.js:35-55 | the rewriting before the recursion neither makes nor changes nested objects |
| GamesRoute.GamesKeepsShape | src/routes/games.js:16-68 | falsy and scalar values come back unchanged; arrays keep their length and objects their keys |
| GamesRoute.ShotMeaning | src/routes/games.js:49-55 | a screenshot entry changes only when it is a relative URL, or an object with a relative `url` where only `url` changes; a second pass changes nothing |
| GamesRoute.ShotsIdempotent | src/routes/games.js:49-55 | the screenshots mapping is idempotent and creates no `null` entry |
| GamesRoute.PlainIdempotent | src/routes/games.js:35-55 | rewriting a field twice equals rewriting it once |
| GamesRoute.GamesFields | src/routes/games.js:32-64 | in an object a nested object is formatted in turn; any other field changes only as a relative URL under an image key (into the CDN URL) or as the `screenshots` array; nested arrays under other keys are left alone |
| GamesRoute.NullShotThrows | src/routes/games.js:49-53 | a `null` screenshot entry makes formatting throw |
| GamesRoute.NoNullNoThrow | src/routes/games.js:16-68 | a response with no `null` anywhere in it is always formatted |
| GamesRoute.GamesIdempotent | src/routes/games.js:16-68 | formatting a formatted response changes nothing |
| CatalogueRoute.Catalogue | src/routes/catalogue.js:20-50 | formatting keeps the kind of the value (array, object, string) and its truthiness |
| CatalogueRoute.CatalogueKeepsShape | src/routes/catalogue.js:20-50 | falsy and scalar values come back unchanged; arrays keep their length and objects their keys |
| CatalogueRoute.CatalogueByField | src/routes/catalogue.js:35-47 | the shallow copy with three conditional overrides and the screenshots map formats each field on its own |
| CatalogueRoute.CatalogueFields | src/routes/catalogue.js:35-47 | a field changes only as a relative URL under `cover`, `icon` or `backgroundImage`, or as `screenshots` (strings rewritten, all else kept); nested objects are not visited |
| CatalogueRoute.FieldIdempotent | src/routes/catalogue.js:37-44 | rewriting a field twice equals rewriting it once |
| CatalogueRoute.CatalogueIdempotent | src/routes/catalogue.js:20-50 | formatting a formatted response changes nothing |
| CatalogueRoute.AgreesWithGames | src/routes/catalogue.js:20-50 | on a flat object using none of the other twelve image keys and only string screenshots, the catalogue and games routes give the same result |
| Auth.SelectToken | src/middleware/auth.js:18-25 | a token is picked exactly when there is a `Bearer ` header or a non-empty query token; with a `Bearer ` header it is the text after the prefix |
| Auth.Gate | src/middleware/auth.js:27-38 | a rejection is always a 401 with one of the two messages; an acceptance is for the user of the payload the selected token verifies to |
| Auth.OptionalUser | src/middleware/auth.js:41-51 | a user is recorded exactly for a `Bearer ` header whose token verifies, and it is that payload's user |
| Auth.SelectTokenMeaning | src/middleware/auth.js:18-25 | a `Bearer ` header always wins and gives the text after its 7 characters; only without one is a non-empty query token used |
| Auth.GateMeaning | src/middleware/auth.js:27-38 | no or an empty token is rejected with 401 `No token provided`, a token that fails verification with 401 `Invalid or expired token`, otherwise the request is accepted for the payload's user |
| Auth.EmptyBearerShadowsQuery | src/middleware/auth.js:21-29 | a `Bearer ` header with nothing after it is rejected as missing, even with a query token |
| Auth.OptionalAgreesWithGate | src/middleware/auth.js:41-51 | `optionalAuth` ignores the query token and records a user only for a `Bearer` header; with a non-empty token it accepts exactly where `authMiddleware` does, with the same user |
| Auth.Exchange.constructor | src/middleware/auth.js:17 | a request starts with no user, no reply and `next` not called |
| Auth.Exchange.AuthMiddleware | src/middleware/auth.js:17-39 | a rejected request gets its 401 reply and `next` is not called; an accepted one gets `userId` and exactly one call of `next` |
| Auth.Exchange.OptionalAuth | src/middleware/auth.js:41-51 | `next` is called exactly once and nothing is sent; `userId` is set only for a `Bearer` token that verifies |

## Left out

- Asar internals: `asar.extractAll` and `asar.createPackage` are the parameters `extract` and `pack`. Extraction is taken to give well-formed trees (`ExtractsTrees`: names are unique within each directory).
- ContentPatch.NonDryCountsAsDry: it takes as a hypothesis (`PatternsApart`) that no two known patterns can overlap. That holds of the eighteen literals of the table, but the model does not prove it, and it does not carry the equality on to `patchAsar`'s total.
- ContentPatch.CountMatchesChanges: for a non-dry run it bounds the count but does not say which patterns are counted; that is `NonDryCountsAsDry`, under its hypothesis.
- Console output, `printHelp`, the help text and the `allChanges` listing are output only. `process.exit` becomes an `Exit` value with `ExitCode`.
- `parseArgs` and its `process.argv` edge cases are not modelled. `main` starts from the parsed `Invocation` record.
- `launcherSubdomain` is not modelled, because no patch step reads it.
- `.env` loading through dotenv is not performed. The environment is the map parameter of `Catalog.DefaultConfig`.
- UTF-8 decoding and encoding of script files is not modelled. A file's text is a sequence of characters, and archive bytes are opaque.
- `path.join` normalisation is not modelled. Paths are joined with `/`.
- The order in which `readdirSync` lists directory entries is taken as the tree's entry order.
- Extraction into an already existing scratch directory replaces it whole. The model does not merge the two.
- `fs.rmSync` of the scratch directory happens only on the normal path, as in the code. When packing throws, the scratch tree stays.
- Symbolic links, permissions, and `statSync` results other than file or directory are not modelled.
- JSON numbers are integers. Floats, `NaN` and `-0` (whose truthiness differs) are not modelled, and neither is the key order of objects.
- Auth.Payload: a decoded payload without `userId`, which would set `req.userId` to `undefined`, is not modelled.
- Auth.Request: a `token` query parameter given as an array by the query parser is not modelled. It is a string or absent.
- JWT signing and verification (`jsonwebtoken`), `generateToken` and the secret are not modelled. Verification is the parameter `verify`.
- The Express route handlers around `formatResponse` are not modelled. That covers the HTTP proxying in both route files and the handling of their errors.
