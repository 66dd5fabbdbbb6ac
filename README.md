# Venue/target server: a verified model

The server keeps "venues". Each venue is one JSON document `{venue, targets}`
in a venues directory. Each target (`no`, `title`, `lat`, `lng`, `pic`,
`comments`) can have an image file in a per-venue image directory. Six
handlers read and change this state: `/venues`, `/targets`,
`/update-venue`, `/delete-venue`, `/update-target` and `/delete-target`.
There is also `writeImage`, which turns a data-URL payload into a stored
file and its public path `/images/<venue>/<title>.<ext>`.

The repository has two versions of these handlers. `src/app.ts` is the
later one and `index.js` the earlier one. They differ in how a target is
found, numbered, overwritten and deleted, so each has its own module. They
share the document model and the abstract filesystem.

| file | module | models |
|---|---|---|
| wrappers.dfy | `Wrappers` | `Option` |
| jsstring.dfy | `JsString` | JavaScript `indexOf`, `slice` (negative bounds count from the end) and `startsWith` |
| image.dfy | `ImageHeader` | the extension `slice(indexOf('/') + 1, indexOf(';'))` and the public path, common to both `writeImage`s |
| venue.dfy | `Venue` | targets, array slots (`None` = a slot emptied by `delete`, which is `null` after a JSON round trip), requests, and `findIndex`/`filter` with the callback `t.no === target.no`, including the TypeError when it reads `no` off an empty slot |
| storage.dfy | `Storage` | the filesystem as state: is there a venues directory, the venue documents by name, the image directories, the image files; `/venues`, `/targets`, recursive removal of an image directory |
| app.dfy | `App` | the handlers of `src/app.ts` and its `writeImage` |
| legacy.dfy | `Legacy` | the handlers of `index.js` and its `writeImage` |

Each handler is a method over a `Storage.FileSystem` object. Its
postcondition gives the reply and the whole new state. Each change to
`json.targets` is also a function (`App.Upsert`, `App.Delete`,
`Legacy.Upsert`, `Legacy.Delete`) whose own contract says:
- which index changes;
- that the length is kept, or grows by exactly one;
- that every other slot is untouched.

The handlers rebuild a local `seq<Slot>` copy of `json.targets` step by
step (append, field updates, emptying a slot), and are proved equal to
these functions.

How the modelled requests end:
- `App.Outcome`: a reply `Sent(ret, msg)` (`ret` is `None` for the
  `{msg}`-only replies), no reply, or a throw.
- `Legacy.Exit`: the value the handler returns, or a throw. The index.js
  handlers modelled here never send a reply.

Writes of the venue file can fail. A failure comes in as a parameter: the
stringified error for `src/app.ts`, a flag for `index.js`.

Notes on the code:
- `src/app.ts` deletes a target by emptying its slot with `delete`
  (src/app.ts:251), so the array keeps its length.
- A new `no` is the last element's `no` + 1 (src/app.ts:170).
- `/update-target` checks only the request's `pic`: the `writeImage` call
  is commented out (src/app.ts:188).
- Deleting a missing venue in `src/app.ts` still removes that venue's image
  directory (src/app.ts:126-137).

In `src/app.ts`'s `/delete-venue`, the handler keeps running after a
failure reply. A second `res.send` throws because the headers are already
sent. The client therefore sees the first reply, and the handler stops at
the second `res.send`.

## Model

| member | source | states |
|---|---|---|
| `JsString.IndexOf` | src/app.ts:282 | -1 exactly when the character is absent; otherwise the position of its first occurrence |
| `JsString.IndexOfAfter` | src/app.ts:282 | when the prefix lacks the character, the first occurrence in the concatenation is the one in the suffix, shifted by the prefix length |
| `JsString.Slice` | src/app.ts:282 | in-range bounds give the plain subsequence; a clamped end at or before the clamped start gives "" |
| `ImageHeader.ExtOfHeader` | src/app.ts:282 | for `data:image/<sub>;<rest>` with no `/` or `;` in `sub`, the extension is exactly `sub` |
| `ImageHeader.ExtWithoutSemicolon` | index.js:209 | without any `;`, `indexOf(';')` is -1 and the extension loses the payload's last character |
| `ImageHeader.ExtPng` | src/app.ts:282 | `data:image/png;base64,AAAA` has extension `png` |
| `ImageHeader.ExtTruncated` | index.js:209 | `data:image/png` has extension `pn` |
| `Venue.FindIndex` | src/app.ts:166 | `Found(p)`: slot p is the first match and every slot before it holds a non-matching target; `NotFound` exactly when every slot holds a non-matching target; `Fault`: an empty slot is reached before any match; an absent `no` matches nothing |
| `Venue.Filter` | index.js:127 | faults exactly when some slot is empty (the callback visits all slots); otherwise keeps only matching targets, and keeps none exactly when no slot matches |
| `Venue.FilterOne` | index.js:127-149 | `filter` keeps exactly one target if and only if exactly one slot matches |
| `Storage.FileSystem.ListVenues` | src/app.ts:36-45 | `[]` without the venues directory; otherwise each stored venue's name exactly once, and nothing else (same in index.js:33-38) |
| `Storage.FileSystem.GetTargets` | src/app.ts:50-67 | the stored document if the venue has a file, otherwise `{venue: '', targets: []}` (same in index.js:43-59) |
| `Storage.FileSystem.RemoveImageDir` | src/app.ts:133-137 | the venue's image directory and every file in it are gone; the rest of the state is unchanged |
| `App.Upsert` | src/app.ts:165-186 | throws exactly when `findIndex` faults. On a match at p: only slot p changes, taking the request's title, lat, lng, pic and comments and keeping its `no`; length kept. No match, or an absent `no`: exactly one target is appended, with `no` 1 for an empty list and the last `no` + 1 otherwise |
| `App.Delete` | src/app.ts:234-252 | throws exactly when `findIndex` faults; "no such target" exactly when nothing matches; otherwise the matched slot is emptied, the length is kept and every other slot stays in place |
| `App.WriteImage` | src/app.ts:277-295 | "" exactly when venue, title or payload is empty or the payload does not start with `data:image`; otherwise `/images/<venue>/<title>.<ext>` |
| `App.WriteImageOfHeader` | src/app.ts:279-291 | a well-formed `data:image/<sub>;...` header is stored under `/images/<venue>/<title>.<sub>` |
| `App.WriteImageExample` | src/app.ts:277-291 | `data:image/png;base64,AAAA`, title `spot`, venue `v1` gives `/images/v1/spot.png` |
| `App.UpdateVenue` | src/app.ts:72-104 | the venues directory exists afterwards; on a successful write the venue's document is `{venue, targets}`, with the old targets if the file existed and `[]` otherwise; on a failed write the error is the message and no document changes |
| `App.DeleteVenue` | src/app.ts:109-143 | no venue: no reply, no change. No venues directory: "not found venues", no change. Otherwise the venue's file and image directory are removed, and the reply is "success" or (the file was missing) "not found venue" |
| `App.UpdateTarget` | src/app.ts:148-212 | missing directory or file: "no exist venues" / "no exist venue" without `ret`, no change. Otherwise the document becomes the `Upsert` result; an empty `pic` gives `{ret:false, msg:'failed to write image'}` and nothing is written; image files are never touched |
| `App.DeleteTarget` | src/app.ts:217-268 | missing directory or file: "no exist venues" / "no exist venue", no change. No match: "no exist target", no change. Match: that target's image file is removed if present, and the document becomes the `Delete` result |
| `App.UpsertKeepsAscending` | src/app.ts:166-186 | if the stored `no`s increase along the array, they still do after an upsert, so `no` stays unique |
| `App.DeleteKeepsAscending` | src/app.ts:236-252 | emptying a slot keeps the stored `no`s increasing |
| `App.CreateMeetsHole` | src/app.ts:166 | a request without `no` makes `findIndex` throw on any array with an empty slot |
| `App.CreateAfterDeleteThrows` | src/app.ts:166-178 | after a successful delete (src/app.ts:251), every request that creates a target (absent `no`) throws |
| `App.NumbersFirstTwo` | src/app.ts:168-179 | the first two targets created in a venue get `no` 1 and 2 |
| `Legacy.ImagePath` | index.js:205-223 | "" exactly when the payload does not start with `data:image`; otherwise `/images/<venue>/<name>.<ext>`; no check on empty arguments |
| `Legacy.NoEmptyGuard` | index.js:205-206 | an empty venue and name still give a path, `/images//.<sub>` |
| `Legacy.WriteImage` | index.js:205-224 | an absent payload throws and changes nothing; a non-image payload gives "" and changes nothing; an image payload adds `<venue>/<name>.<ext>` and its directory and returns the path |
| `Legacy.Upsert` | index.js:127-151 | throws exactly when a slot is empty; refused exactly when more than one target matches. No match: one target holding every request field is appended with `no` = length + 1 (on an empty list the result is exactly that one target, `no` 1, with `writeImage`'s path as `pic`). One match: element 0, not the matched element, takes every request field including `no`. Either way element 0's `pic` becomes `writeImage`'s path and every element from index 1 up to the old length is unchanged |
| `Legacy.Delete` | index.js:177-186 | throws exactly when a slot is empty; refused unless exactly one target matches; otherwise the slot at index `target.no` (not the matched one) is emptied if it exists, and the length is kept |
| `Legacy.UpdateVenue` | index.js:64-87 | the venues directory exists afterwards; on a successful write the document is `{venue, targets}`, with the old targets or `[]` |
| `Legacy.DeleteVenue` | index.js:92-110 | no venue: no change; otherwise the venues directory exists, and the venue's file and image directory are removed |
| `Legacy.UpdateTarget` | index.js:115-160 | returns false and writes nothing when several targets match; throws, with nothing written, on an empty slot or an absent payload; otherwise writes the image file for an image payload and stores the `Upsert` result unless the write fails |
| `Legacy.DeleteTarget` | index.js:165-195 | returns false, no change, unless exactly one target matches; otherwise stores the `Delete` result unless the write fails; image files are never touched |
| `Legacy.DeleteNeedsOneMatch` | index.js:177-186 | a delete goes ahead if and only if no slot is empty and exactly one slot holds the `no` |
| `Legacy.UpsertRefusedOnDuplicate` | index.js:127-149 | an update is refused if and only if no slot is empty and two different slots hold the `no` |
| `Legacy.OverwriteRepeatsNo` | index.js:140-146 | updating target 2 of targets 1, 2 overwrites element 0, leaving two targets numbered 2, after which every update of 2 is refused |
| `Legacy.LengthNumberingRepeatsNo` | index.js:129-139 | when the list holds a single target numbered 2, a new target is also numbered 2 |
| `Legacy.DeleteHitsIndex` | index.js:182-183 | deleting target 1 of targets 1, 2 empties index 1, which is target 2 |
| `Legacy.DeletePoisonsVenue` | index.js:177-183 | once a delete empties a slot, every later update and delete of that venue throws |

## Left out

- Express setup, routing, `app.listen`, CORS headers, body parsing and static serving: transport plumbing.
- Real `fs` calls and `path.join`. The filesystem is abstract state keyed by venue name and by (venue, file name); the double-`__dirname` joins (src/app.ts:134, src/app.ts:247, index.js:70, index.js:100, index.js:106) are treated as the same keys as the single joins. In the source they name other paths: index.js's `/update-venue` writes, and its `/delete-venue` deletes, a `<dir><dir>/jsons/<venue>.json` that `/venues`, `/targets` and `/update-target` never read, and src/app.ts's `/delete-venue` and `/delete-target` look for images under a doubled directory that `writeImage` never writes. So the claims that update-venue keeps a venue's targets and that delete-venue and delete-target remove files hold only for these merged keys.
- `path.basename(x, '.json')`: venues are keyed by name, so `v.json` lists as `v`; its edge cases are not modelled.
- JSON text: documents are modelled after parsing; the only trace of the format is that an emptied slot comes back as `null`.
- Base64 decoding, the regular-expression header strip and the file contents written by `writeImage` (src/app.ts:280-281, index.js:207-208): foreign library calls.
- The `writeImage` branch that returns a stringified write error as a path (src/app.ts:289, index.js:217), and failures of `mkdirSync`, `unlinkSync` and `rmdirSync`: I/O errors other than the venue-file write are not modelled.
- Legacy.UpdateTarget: requires the venues directory and the venue's file to exist; the source then sends a reply and goes on to read a missing file (index.js:120-126), which depends on Express's "headers already sent" behaviour.
- Legacy.DeleteTarget: requires the venues directory and the venue's file to exist, for the same reason (index.js:170-176).
- Storage.FileSystem.ListVenues: the order is whatever the directory listing yields, which the source does not fix; in index.js the throwing `readdirSync` after `res.send([])` (index.js:35-36) is not modelled.
- App.DeleteTarget: a stored `pic` of "" makes the source unlink the image directory itself, which throws; the model treats that key like any other file.
- Request fields that are not strings: an absent `title` or `pic` is "", and JavaScript's `undefined` in a string concatenation is not modelled; `venue` is a string, so "undefined.json" is not modelled.
- `lat`, `lng` and `comments` are opaque values (their JSON text) passed through unchanged: no floating point.
- Concurrency between requests: the source has none.
- ImageHeader.ExtWithoutSemicolon: JavaScript strings are UTF-16 code units, while a Dafny `char` is a Unicode scalar value. `indexOf`, and `slice` with non-negative bounds, agree on the payloads modelled. For the -1 end bound used when there is no ';', a payload ending in a character outside the Basic Multilingual Plane loses half a surrogate pair in JavaScript and the whole character in the model.
