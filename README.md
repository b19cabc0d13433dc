# filebrowser resource, share and user core in Dafny

This project models the decision logic of the filebrowser backend's
resource and share handlers, plus the user record they consult.

- **Resources** (`http/resource.go`):
  - path normalisation after the route prefix is stripped;
  - the rule gate;
  - classification of filesystem errors into HTTP statuses;
  - the GET, DELETE, POST/PUT and PATCH handlers, over a map-based filesystem with a log of Runner calls;
  - the ETag of an upload;
  - resolution of the sort/order preference from query values and cookies.
- **Shares** (`http/share.go`):
  - the share-permission gate;
  - the expiry sweep of the listing, both as intended and as written;
  - reuse of a permanent link;
  - 6-byte base64url tokens;
  - expiry units and dates;
  - hash extraction for deletion, over a share store that maps hash to link.
- **Users** (`types/user.go`):
  - the permission flags and the user record;
  - the one-shot lazy construction of the user's filesystem handle;
  - the rule check.

Files:
- `http.dfy` (module `Http`): requests, responses, cookies, status codes, and Go's `strings.TrimPrefix`/`TrimSuffix`.
- `users.dfy` (module `Users`): `Permissions`, `Rule`, and the class `User` with `BuildFs` and `IsAllowed`.
- `codecs.dfy` (module `Codecs`): the library encodings the handlers rely on, each with a round-trip proof:
  - URL-safe base64 with padding (RFC 4648 section 5);
  - `strconv.Atoi` (optional sign, decimal digits, the int64 range);
  - `%x` formatting of a signed integer.
- `resource.dfy` (module `Resource`): the resource handlers. Pure decisions are functions. `Delete`, `PostPut` and `Patch` are methods of `ResourceEnv`, whose `files` map and `runs` log they update.
- `share.dfy` (module `Share`): the share handlers. `List`, `Create` and `Delete` are methods of `ShareEnv`, whose `store` map they update. The literal sweep loop is a method over an array.

Behaviour outside the shown sources is passed in as a parameter, with nothing assumed about it:
- the rule predicate `isAllowed`;
- `NewFileInfo`;
- `Checksum`;
- `url.QueryUnescape`;
- the clock;
- the random bytes;
- the failure of a store call.

The model follows the code where the two could be read differently. For example, the PATCH destination is never passed through the rule check; only the source path is (`http/resource.go:198-239`).

## Model

| member | source | states |
|---|---|---|
| Users.BuiltFs | types/user.go:46-50 | the field always holds a handle afterwards; an existing handle is kept; a missing one becomes a base-path filesystem rooted at the scope |
| Users.BuiltFsIdempotent | types/user.go:46-50 | building a second time, even with another scope, leaves the handle built the first time |
| Users.User.BuildFs | types/user.go:46-50 | assigns `fs` only when it is unset, to a base-path filesystem rooted at `scope`; every other field keeps its value |
| Users.BuildFsTwice | types/user.go:46-50 | two consecutive calls end in the state one call produces |
| Users.User.IsAllowed | types/user.go:53-55 | the verdict is the rule predicate applied to the url and the user's rules |
| Users.IsAllowedDependsOnlyOnRules | types/user.go:53-55 | two users with equal rules get the same verdict for every url, whatever their permissions or scope |
| Http.TrimPrefix | http/resource.go:38 | removes one leading prefix exactly when present, otherwise returns the input |
| Http.TrimSuffix | http/resource.go:39 | removes one trailing suffix exactly when present, otherwise returns the input |
| Resource.HttpFsErr | http/resource.go:17-30 | the first matching case wins: 200 iff there is no error; 403 iff a permission error; 404 iff a not-exist error that is not a permission error; 409 iff an exist error that is neither of those; 500 iff an error that is none of the three |
| Resource.NormalizePath | http/resource.go:38-42 | the result is never empty; it is the path with the prefix and at most one trailing '/' removed, or "/" when nothing is left |
| Resource.NormalizePathOfPrefixed | http/resource.go:38-42 | prefix + rel (rel non-empty, without a trailing '/') normalises back to rel, with or without one trailing '/' appended; the bare prefix and prefix + "/" normalise to "/" |
| Resource.ResolveResource | http/resource.go:32-50 | succeeds with the normalised path iff the rule predicate allows it; otherwise the status is 403 |
| Resource.Preference | http/resource.go:248-262 | an empty value becomes the cookie's value or the default; a recognised value is returned with a cookie; any other value is returned unchanged with no cookie |
| Resource.HandleSortOrder | http/resource.go:244-281 | sort and order are each the query value when non-empty, else the cookie, else "name"/"asc"; a cookie is set exactly for recognised values, with MaxAge 31536000, the given path, and Secure iff TLS |
| Resource.PreferencePersists | http/resource.go:244-281 | once its cookies are stored, a later request with no sort/order query resolves to the same recognised sort and order |
| Resource.ReadOnlyView | http/resource.go:83-85 | a "text" file seen by a user without the edit permission comes back as the same file typed "textImmutable"; every other file comes back unchanged |
| Resource.GetResource | http/resource.go:52-102 | 403 when the gate refuses; a filesystem error maps through HttpFsErr; a directory is returned with the resolved sort and order and their cookies; a file is returned as its read-only view, and with a `checksum` parameter an invalid option gives 400, any other checksum error 500, and a computed checksum the view with those checksums and empty content; 400 only with a checksum parameter; 200 iff a body is returned |
| Resource.GetForbiddenBeforeFilesystem | http/resource.go:53-56 | when the rules refuse the path, the answer is 403 whatever the filesystem or the checksum source would do |
| Resource.GetDirectoryNeverBadRequest | http/resource.go:64-76 | a directory is never answered with 400, because resolving the sort preference never fails |
| Resource.ETag | http/resource.go:184 | the tag is a strong entity tag (RFC 9110 section 8.8.3): a quoted string of hex digits and '-', at least 4 characters |
| Resource.ETagDeterminesVersion | http/resource.go:184 | for modification times of equal hex width, equal tags mean equal times and sizes |
| Resource.ETagAmbiguousAcrossWidths | http/resource.go:184 | without a separator, (0x1, 0x23) and (0x12, 0x3) give the same tag |
| Resource.RemoveAll | http/resource.go:116 | the path and everything beneath it are gone; every other entry is unchanged |
| Resource.MkdirAll | http/resource.go:152 | a path that is a file gives an error and no change; otherwise the path is a directory afterwards and nothing else changes |
| Resource.WriteFile | http/resource.go:167-176 | a directory gives an error and no change; otherwise the path holds exactly the body (truncate and write) |
| Resource.Rename | http/resource.go:238 | a missing source gives not-exist; otherwise the entry moves to the destination and the source is gone |
| Resource.ResourceEnv.Delete | http/resource.go:104-125 | 403 with no change on a refused gate, the root, or no delete permission; otherwise exactly one Runner call ("delete", path, "") and the subtree is removed; the scope root, the key "/", stays a directory (keys are not cleaned, see Left out) |
| Resource.ResourceEnv.PostPut | http/resource.go:127-195 | POST without create or PUT without edit gives 403; a URL ending in '/' gives 405 for PUT and only MkdirAll for POST; POST without override=true on an existing path gives 409 with no change; otherwise one "upload" Runner call, the body written, and the ETag header set; the scope root stays a directory, so POST to it without override gives 409 and a write to it fails with 500 |
| Resource.ResourceEnv.Patch | http/resource.go:197-242 | an unescape failure gives 500; a root source or destination gives 403; "copy" needs create and changes nothing; explicit "rename" needs no permission; any other action becomes rename and needs the rename permission; the Runner name is always "action"; the scope root stays a directory |
| Codecs.EncodeBase64Url | http/share.go:109 | output length is 4·⌈n/3⌉; for whole triples every character is in the URL-safe alphabet |
| Codecs.DecodeEncodeBase64Url | http/share.go:109 | decoding the encoding gives back the bytes |
| Codecs.Atoi | http/share.go:118 | parses iff the text after an optional '+' or '-' is a non-empty run of decimal digits whose value fits int64 with that sign; the value is that of the digits, negated after '-' |
| Codecs.AtoiNonCanonical | http/share.go:118 | "007", "+5" and "-0" parse to 7, 5 and 0; "+", " 1" and "a" do not parse |
| Codecs.AtoiItoa | http/share.go:118 | every int64 printed in decimal parses back to itself |
| Codecs.FormatHex | http/resource.go:184 | `%x` of an integer: a non-negative number prints as hexadecimal digits that parse back to it; a negative one prints as '-' followed by digits that parse back to its magnitude |
| Codecs.ParseHexNatRoundTrip | http/resource.go:184 | hex digits printed by `%x` parse back to the number |
| Codecs.FormatHexSign | http/resource.go:184 | `%x` output is non-empty and starts with '-' exactly for negative numbers |
| Codecs.FormatHexInjective | http/resource.go:184 | distinct numbers print differently under `%x` |
| Share.JoinPath | http/share.go:28 | `filepath.Join` of two parts with no Clean step: the result starts with the first part and ends with the second; two non-empty parts are separated by exactly one added '/', so a second part that already starts with '/' gives a doubled '/' |
| Share.ShareTarget | http/share.go:17-29 | succeeds iff the rule gate passes and the user has the share permission, with the path joined to the scope; otherwise 403 |
| Share.Unexpired | http/share.go:48-53 | the intended sweep: a link is kept iff it was present and is not expired |
| Share.UnexpiredAppend | http/share.go:48-53 | the intended sweep distributes over concatenation, so it can be done link by link |
| Share.SweptStore | http/share.go:48-53 | the intended store after the sweep: exactly the expired links of the path whose deletion does not fail are gone, every other link is kept unchanged |
| Share.ShiftLeft | http/share.go:51 | the elements after the removed index move one place left within the same array; the last slot keeps its old element |
| Share.RangeRemoveFrom | http/share.go:48-53 | the loop as written from index i on, over the backing array with the slice's current length: it only appends to the deleted hashes, at most one per remaining index, each the hash of an expired link of the backing array; a panic always follows a deletion; a rendered slice is no longer than the current length |
| Share.RangeRemove | http/share.go:48-53 | the whole loop as written: at most one deletion per link, each the hash of an expired link of the list, and a rendered list no longer than the input |
| Share.SweepAsWritten | http/share.go:48-53 | the loop as written, over the slice's backing array, ends as RangeRemove describes: panic or rendered list, plus the store deletions |
| Share.AdjacentExpiredLinkSurvives | http/share.go:48-53 | [expired, expired, valid] renders [expired, valid] and deletes only the first link, where the intended sweep renders [valid] |
| Share.TrailingExpiredLinksPanic | http/share.go:48-53 | [expired, expired] deletes both links' hashes and then makes the handler panic |
| Share.StaleLastLinkPanics | http/share.go:48-53 | [expired, valid, expired] examines the stale last slot and panics |
| Share.NothingExpiredAgrees | http/share.go:48-53 | with nothing expired the loop as written and the intended sweep both return the list untouched |
| Share.NewToken | http/share.go:102-109 | a token is 8 URL-safe base64 characters with no padding, and decodes to the 6 random bytes |
| Share.UnitNanos | http/share.go:124-134 | seconds, minutes and days have their lengths; any other unit, including none, counts hours |
| Share.NewShareLink | http/share.go:111-137 | the link expires iff `expires` is non-empty; a non-integer value gives no link; the expiry date is now plus the number times the unit; a permanent link carries Go's zero time |
| Share.ListedUntilDeadline | http/share.go:48-53 | a link created with n units, for any integer n, is kept by every sweep up to n units after creation and by none later |
| Share.ShareHash | http/share.go:69-71 | the text after the prefix is the hash with at most one '/' before it and at most one after it: a trailing '/' is removed exactly when present, then a leading '/' exactly when present; the hash is never longer than the URL path |
| Share.ShareHashOfToken | http/share.go:69-71 | every issued token is recovered from its delete URL, with or without a trailing '/' |
| Share.ShareEnv.GetByPath | http/share.go:37 | returns exactly the stored links of the path, each once |
| Share.DeleteExpired | http/share.go:48-50 | deleting the hash of each expired link in turn, where some deletions fail and change nothing, leaves the store without exactly the expired links' hashes whose deletion did not fail |
| Share.SweepByHashes | http/share.go:37-53 | when the listed links are exactly the stored links of the path, removing their expired hashes (less the failing ones) gives the swept store of that path |
| Share.ShareEnv.GetPermanent | http/share.go:95 | returns a link iff a permanent link of the path is stored, and then one stored under its own hash |
| Share.ShareEnv.Sweep | http/share.go:48-53 | the kept links are the intended filter of the listing, in order, and the store is the store with each expired link's hash deleted unless that deletion fails, a failure being ignored |
| Share.ShareEnv.List | http/share.go:31-56 | 403 on a refused gate; 500 on a backend error; [] with no deletion when the path has no link; otherwise the listing is exactly the path's unexpired links, whether or not their deletion fails, and the store is the swept store |
| Share.ShareEnv.Create | http/share.go:83-145 | 403 on a refused gate; without `expires`, an existing permanent link's URL is returned and nothing is saved; a random, parse or save failure gives 500 with no change; otherwise the new link is stored under its hash and returned |
| Share.ShareEnv.Delete | http/share.go:58-81 | only the share permission is checked; an empty hash gives 200 with no store call; a store failure gives 500; otherwise exactly that hash leaves the store |

## Left out

- The HTTP plumbing is not modelled: response writers, JSON rendering, and draining the request body (`http/resource.go:143-145`). Statuses, headers, cookies and bodies are returned values.
- The afero/OS filesystem is a flat map from path to node, in which the scope root "/" is always a directory. Modes and streaming I/O are not modelled.
- Share.ShareEnv.List: the sweep reads one clock value `now` for the whole loop, while the source calls `time.Now()` once per link (`http/share.go:49`); a link that expires during the loop is kept in the model. Share.ShareEnv.Sweep, Share.RangeRemove and Share.RangeRemoveFrom use the same single `now`.
- Resource.ResourceEnv.Delete: the root guard compares the raw resolved path with "/", as the source does (`http/resource.go:110`, and `:212` for PATCH). A path that only cleans to the root, such as "//" (from `/api/resources///`) or "/.", passes the guard. afero would then resolve it to the scope root, so RemoveAll or Rename would act on the whole scope. The model does not clean keys, so "//" is a key of its own there, and the root stays a directory only for that reason. Whether such a URL reaches the handler depends on the router, which is not part of this model. Resource.ResourceEnv.Patch has the same gap.
- File-map keys are the raw strings the handlers compute. afero's `BasePathFs` cleans each path and refuses one that leaves the scope, with a not-exist error. The model does neither. The PATCH destination reaches `Rename` without normalisation (`http/resource.go:203-205, 238`), so in the model "" (the root, after cleaning), "/a/" and "/../x" become new keys with 200, where the source cleans them or answers 404.
- Resource.Rename: only the named entry moves. `os.Rename` of a directory moves its whole subtree, and it fails when the destination is a non-empty directory or a kind of node that does not match the source; the model's children stay at their old keys and the destination is always replaced.
- Resource.MkdirAll: missing parent directories are not created, and a parent that is a file does not give ENOTDIR; only the path itself is checked and made a directory.
- Resource.WriteFile: a missing parent (ENOENT) and a parent that is a file (ENOTDIR) do not fail; only a directory at the path itself does.
- These bodies are not part of the shown sources. Each one is a parameter or an input:
  - Runner hooks: `Runner.Run` is recorded as a call and always runs its function; hook errors are not modelled;
  - `NewFileInfo` and `Checksum`;
  - the rule predicate `isAllowed`;
  - `url.QueryUnescape`;
  - the share store backend, whose failures are boolean inputs, and for the sweep's deletions a set of hashes whose deletion fails;
  - `getUser`, whose failure is not modelled: the user is an input.
- `ApplySort`, `DetectSubtitles` and the listing's items are not modelled. Only the listing's sort and order are.
- Share.ShareEnv.Create: a `GetPermanent` call that fails for a reason other than "no permanent link" is treated as "no permanent link", which is how the code proceeds.
- Share.JoinPath: puts the parts together around a '/' and does not perform `filepath.Join`'s `Clean` step. A resolved path already starts with '/', so the scope "/srv" and the path "/docs" give "/srv//docs" where the source gives "/srv/docs"; a share is then stored under that uncleaned path.
- Share.NewShareLink: the expiry date uses unbounded integers, so it does not model the int64 wrap-around of `time.Duration` for very large `expires` values.
- The check-then-save race between concurrent permanent-link requests is not modelled, because it is a concurrency concern.
- `HashPwd` and `CheckPwd` in `types/user.go` are not modelled, because they delegate to bcrypt.
- Share.ShareEnv.List: it uses the intended sweep, not the in-place removal as written. The as-written loop is `Share.SweepAsWritten`; see Findings.

## Findings

| source | as written | input that shows it | evidently intended | confidence | as-written member | corrected member |
|---|---|---|---|---|---|---|
| http/share.go:48-53 | `s = append(s[:i], s[i+1:]...)` inside `for i, link := range s` shifts the slice under the range. The element after each removal is skipped, the stale last slot is read again, and `s[i+1:]` can exceed the shortened slice. | links [expired, expired, valid] render [expired, valid], and the second expired link is never deleted; [expired, expired] and [expired, valid, expired] panic | every expired link of the path is deleted from the store and dropped from the listing, and every other link is listed | not executed | Share.AdjacentExpiredLinkSurvives | Share.ShareEnv.List |
