# chainbeacon in Dafny

chainbeacon watches a set of blockchain nodes. One pass of its `detect` loop works like this:

- `sync` asks every configured node for its `getblockchaininfo` reply and keeps the last `result` of each node under the node's name.
- `checkHeights` is meant to find the lowest and highest stored height and raise the height alert when they are more than one block apart. Its sort does not always achieve this (first row under "## Findings").
- `checkFork` groups the nodes by height, flags a fork when two nodes at one height report different best-block hashes, and picks the best height and a best block.
- `send` mails alerts to every subscriber. It keeps a fingerprint of the last notification, meant to suppress a repeat. The comparison never matches, so nothing is suppressed (second row under "## Findings").

Three alerts are possible: the height alert (heights more than one block apart), the fork alert, and the new-block notice (the best height rose). The configuration comes from `config(appname)`, which builds an options tree from `appname…` environment variables and deep-merges the configuration file over it. The helpers `type`, `isObject` and `merge` of `lib/utils.js` do the checking and the merging.

Modules:

- `values.dfy` (`Values`): JavaScript values as the core handles them (`JsVal`), with the JavaScript rules the code relies on:
  - truthiness;
  - `typeof`, which calls null an "object";
  - `Array.isArray`;
  - property reads, where a missing property is `undefined`.
- `utils.dfy` (`Utils`): `type`, `isObject` and `merge`.
  - `type` and `isObject` are functions.
  - `merge` is a loop over the keys of the right side (`Utils.Merge`), proved equal to the recursive definition `Merged`.
- `config.js` is modelled in `config.dfy` (`Config`) as follows:
  - the filter, split and parse steps are functions;
  - the `reduce` call is a loop (`Config.BuildTree`) over a cursor walk (`Config.Insert`);
  - the whole builder is `Config.Configure`.
- `beacon_spec.dfy` (`BeaconSpec`): what each step of `beacon.js` computes, as functions of the store:
  - `Synced`, `HeightExtent`, `ForkReport`, `Notify`, `Alerts`, `NewBest`;
  - with the lemmas that say what those results mean.
- `beacon.dfy` (`Beacon`): the `Beacon` class, whose fields are those of the source:
  - `results`, kept as a map together with the order in which `for…in` visits its names;
  - `lastSend`, `bestHeight`, `bestBlock`;
  - a ghost log of the emails sent.

  Its methods loop and update these fields as the source does, and each is proved against the matching `BeaconSpec` function. `BeaconConfig`'s checks are the function `CheckOptions`.

Three behaviours of the code are worth stating outright:

- `bestBlock` is the last hash seen at the top height, not the most common one. The counter `best` starts at 0 and is never raised (beacon.js:117, beacon.js:154), so every entry of the top bucket passes the `> best` test and replaces `bestBlock`. `BeaconSpec.ForkReport` and `Beacon.BestBlockOf` model that.
- A rejected query is skipped by `sync`, but a reply that is null or undefined throws when `info.result` is read (beacon.js:68) and so ends the pass.
- An empty store makes `checkFork` throw: `heights[0]` is undefined when no node is at height 0 or above (beacon.js:148), and the code then reads a property of it.

## Model

| member | source | states |
|---|---|---|
| Utils.FirstMistyped | lib/utils.js:15-25 | returns normally iff every listed property has the type; otherwise the error names the first property in list order that does not |
| Utils.Type | lib/utils.js:11-26 | throws "Options is expected." for a falsy `options`; otherwise returns iff every listed property is an array (for "array") or has that `typeof`, and otherwise throws the message of the first failing key |
| Utils.TypeOne | lib/utils.js:11-26 | `type` with one property, case by case: falsy options, accepted, rejected with that key's message |
| Utils.IsObject | lib/utils.js:28-30 | `isObject(a)` holds exactly for plain objects and null |
| Utils.Merge | lib/utils.js:32-43 | the key loop of `merge` computes `Merged`: arrays concatenate, objects take the merge of each key of `right` and keep the keys only `left` has, a null `right` leaves `left`, anything else is `right`, and a null `left` with keys to write throws |
| Utils.MergedFromUndefined | lib/utils.js:39-42 | merging anything over undefined gives the right side |
| Utils.MergeAt | lib/utils.js:32-43 | at every path present in `right`, the merged value is the merge of what the two sides hold there |
| Utils.FileScalarWins | lib/utils.js:39-42 | where the file has a scalar, the result has the file's value |
| Utils.ArraysConcatenate | lib/utils.js:33-34 | arrays at the same place on both sides are concatenated, left first |
| Utils.LeftOnlyKept | lib/utils.js:35-38 | a key that only `left` has, below objects on both sides, keeps `left`'s value |
| Config.Selected | config.js:13 | a variable is kept iff its name starts with `appname`; when every name matches, the environment is kept whole and in order |
| Config.SelectedAppend | config.js:13 | `filter` keeps the order: the selection of two runs of variables is the first run's selection followed by the second's |
| Config.UnmatchedDropped | config.js:13 | inserting a variable whose name does not match anywhere in the environment leaves the selection unchanged |
| Config.Split | config.js:16 | `split('__')` gives at least one piece |
| Config.SplitHead | config.js:16 | the first piece is a prefix of the name, and when more pieces follow, `__` comes right after it |
| Config.SplitPieces | config.js:16 | the cuts are made at the separators found left to right: no piece contains `__`, and no piece but the last ends in `_` (`a___b` gives `a` and `_b`) |
| Config.JoinSplit | config.js:16 | joining the pieces with `__` gives the name back, so the path loses nothing |
| Config.InsertStores | config.js:27-38 | after a successful walk, the parsed value sits at the end of the path |
| Config.InsertTopLevel | config.js:27-38 | a walk adds or changes only the top-level property named by the path's first segment |
| Config.InsertIntoEmpty | config.js:32-33 | any path into a fresh `{}` succeeds, since every level is created |
| Config.InsertCreates | config.js:32-33 | a missing or falsy value on the path is replaced (by `{}` below, by the value at the end), and the walk stores the value |
| Config.InsertRejectsScalar | config.js:30-31 | a truthy non-object on the path throws "Unexpected env variable." |
| Config.InsertRejectsPrefix | config.js:34-35 | a truthy object at the path's last segment (the name is a prefix of an earlier one) throws "Unexpected env variable." |
| Config.FoldStops | config.js:19-40 | once a variable throws, the whole reduction throws that error |
| Config.FoldRoots | config.js:19-40 | every top-level property of the tree is the first segment of some selected name |
| Config.BuildTree | config.js:19-39 | the `reduce` loop computes `Fold`: one insertion per variable, stopping at the first throw |
| Config.Configure | config.js:6-43 | the builder computes `Configured`: the `appname` subtree of the environment tree, with the file merged over it |
| Config.UnmatchedIgnored | config.js:13 | a variable that does not match `^appname` has no effect on the configuration |
| Config.FileOnly | config.js:40-42 | when no selected name has `appname` as its first segment (such as `appnameX__a`), the result is the file configuration itself |
| BeaconSpec.AssignWellFormed | beacon.js:68 | storing a result keeps every name listed once, each with an entry |
| BeaconSpec.SyncedWellFormed | beacon.js:59-70 | `sync` keeps the store well formed and only appends names to the visiting order |
| BeaconSpec.SyncedStops | beacon.js:59-70 | `sync` throws iff some node replies with null or undefined; failed queries never stop it |
| BeaconSpec.SyncedKeepsOthers | beacon.js:59-70 | a name that no replying node carries keeps its entry or its absence; failed nodes keep their previous snapshot |
| BeaconSpec.SyncedStores | beacon.js:59-70 | after a full `sync`, each replying node's `result` is stored under its name, unless a later replying node has the same name |
| BeaconSpec.CollectMeaning | beacon.js:95-101 | the store loop runs to the end iff every value is accepted, then yields the values in store order; otherwise it stops with the error of the first rejected value |
| BeaconSpec.CollectSnoc | beacon.js:95-101 | one more turn of the store loop appends the next value |
| BeaconSpec.CollectFirstErr | beacon.js:95-101 | the store loop ends with the error of the first rejected value |
| BeaconSpec.HeightOf | beacon.js:98-100 | a stored result yields its `blocks` iff it is truthy with a numeric `blocks`; otherwise the TypeError of `type` |
| BeaconSpec.Min | beacon.js:106 | the least of the heights, which is one of them |
| BeaconSpec.Max | beacon.js:105 | the greatest of the heights, which is one of them |
| BeaconSpec.Extent | beacon.js:103-108 | `[low, high]` of the ascending order: undefined for no heights, else two stored heights with every height between them |
| BeaconSpec.HeightExtentThrows | beacon.js:95-101 | `checkHeights` returns iff every stored result is truthy with a numeric `blocks`; otherwise it throws the TypeError of the first one that is not |
| BeaconSpec.HeightExtentBounds | beacon.js:92-109 | for an empty store `checkHeights` returns `[undefined, undefined]`; otherwise `low <= high`, both stored heights, with every stored height between them |
| BeaconSpec.SkewedIff | beacon.js:77 | the height test holds iff two stored heights are more than one block apart, so a skew of exactly one does not fire it |
| BeaconSpec.RunEnd | beacon.js:103 | where TimSort's first run ends under the comparator as written |
| BeaconSpec.OneRun | beacon.js:103 | under the boolean comparator every array is a single ascending run, so the sort leaves it unchanged |
| BeaconSpec.ExtentAsWritten | beacon.js:103-108 | as written, `low` and `high` are the first and last heights in store order, the array being one run |
| BeaconSpec.SkewMissedAsWritten | beacon.js:103-108 | heights 103 then 100: as written no height alert, while the intended extent fires it |
| BeaconSpec.AsWrittenWhenAscending | beacon.js:103-108 | on heights already ascending, the as-written extent equals the intended one |
| BeaconSpec.ChainOf | beacon.js:122-131 | a stored result passes both checks iff it is truthy with a numeric `blocks` and a string `bestblockhash`; otherwise the TypeError of the first failing check |
| BeaconSpec.Group | beacon.js:125-131 | every bucket of `heights` is non-empty |
| BeaconSpec.GroupKeys | beacon.js:125-131 | `heights` has a bucket for exactly the heights of the nodes |
| BeaconSpec.GroupSnoc | beacon.js:125-134 | one more node appends its hash to its height's bucket and raises the best height to its height if greater |
| BeaconSpec.GroupMembers | beacon.js:125-131 | the hashes in a height's bucket are those of the nodes at that height |
| BeaconSpec.GroupLast | beacon.js:128-131 | the last hash of a bucket is that of the last node, in store order, at its height |
| BeaconSpec.TopHeight | beacon.js:113 | `bestHeight` is at least 0 and every node's height is at most `bestHeight`; `bestHeight` is 0 or some node's height |
| BeaconSpec.LatchIsFirstSet | beacon.js:138-142 | the inner loop's `hash` is unset iff every hash is empty, else it is the first non-empty hash |
| BeaconSpec.BucketForksIff | beacon.js:140-145 | the inner loop sets `fork` iff a non-empty hash in the bucket is followed by a different one |
| BeaconSpec.DiffersAppend | beacon.js:140-145 | appending a hash creates a difference iff an earlier set hash in the bucket differs from it |
| BeaconSpec.DisagreeAppend | beacon.js:125-145 | a new node creates a disagreement iff an earlier node at its height has a different set hash |
| BeaconSpec.SetOtherInBucket | beacon.js:125-131 | the bucket holds a set hash other than `x` iff an earlier node at that height does |
| BeaconSpec.AnyDiffersAppend | beacon.js:125-145 | adding a hash to one bucket creates a differing bucket iff that bucket already had a set hash other than it |
| BeaconSpec.GroupDiffersIffDisagree | beacon.js:119-146 | some bucket differs iff two nodes at one height disagree |
| BeaconSpec.ForkedIffDisagree | beacon.js:137-146 | `fork` is set iff two nodes at one height disagree, the earlier one with a non-empty hash |
| BeaconSpec.ForkedWithSetHashes | beacon.js:137-146 | with non-empty hashes, `fork` is set iff some height holds two different hashes |
| BeaconSpec.NoForkCases | beacon.js:137-146 | no fork when all heights differ (a bucket of one never forks), nor when every node has the same hash |
| BeaconSpec.ForkReportMeaning | beacon.js:111-159 | `checkFork` returns the greatest height (0 when none is above 0), the hash of the last node at that height, and a fork flag set exactly on a disagreement |
| BeaconSpec.ForkReportTypeErrors | beacon.js:119-123 | `checkFork` passes its checks iff every stored result is truthy with a numeric `blocks` and a string `bestblockhash`; otherwise it throws the TypeError of the first one that is not |
| BeaconSpec.ForkReportThrows | beacon.js:148 | with well-typed results, `checkFork` throws "not iterable" iff no node is at height 0 or above, which includes the empty store |
| BeaconSpec.TopPresent | beacon.js:148 | `heights[bestHeight]` exists iff some node is at height 0 or above |
| BeaconSpec.Mails | beacon.js:36-42 | one email per subscriber, in list order, each with the subject line and text |
| BeaconSpec.NotifyDedup | beacon.js:25-42 | the same subject on an unchanged store, right after it was sent, sends nothing; a different subject or store text mails every subscriber |
| BeaconSpec.AlertsMeaning | beacon.js:72-90 | a pass sends the height alert iff two heights are more than one block apart, the fork alert iff two nodes at one height disagree, the notice iff the best height is above the known one; at most three, in that order |
| BeaconSpec.NewBestMeaning | beacon.js:85-89 | a pass adopts a new best exactly when it sends the notice; the height is above the known one and is the greatest stored, and the block is the last node's at that height |
| BeaconSpec.SubjectsDistinct | beacon.js:47-57 | the three alert subjects differ |
| Beacon.CheckOptions | beacon.js:166-170 | `BeaconConfig` accepts iff `nodes` and `subscribers` are arrays, `emailer` of typeof "object" and `interval` a number; otherwise the first failing check's TypeError |
| Beacon.Beacon.constructor | beacon.js:10-16 | empty results, no last send, best height 0, no best block |
| Beacon.Beacon.Send | beacon.js:25-45 | per `Notify`: nothing when the fingerprint equals `lastSend`; otherwise `lastSend` takes it and every subscriber is mailed in order |
| Beacon.Beacon.Sync | beacon.js:59-70 | the new store and the thrown error are those of `Synced`; the store stays well formed |
| Beacon.Beacon.CheckHeights | beacon.js:92-109 | returns or throws `HeightExtent` of the stored values in store order |
| Beacon.Beacon.CheckFork | beacon.js:111-159 | returns or throws `ForkReport` of the stored values in store order |
| Beacon.Beacon.GroupResults | beacon.js:119-135 | the first loop gives the `heights` buckets (`Group`) and `bestHeight` (`TopHeight`), or the first check's error |
| Beacon.Beacon.Raise | beacon.js:47-57 | one more `send` extends the run of notifications by its subject |
| Beacon.Beacon.Detect | beacon.js:72-90 | the store after `sync`; returns iff nothing threw; the notifications are those of `Raised`; `bestHeight`/`bestBlock` change only as `Adopted` says, and `bestHeight` never decreases |
| Beacon.Beacon.Analyse | beacon.js:75-89 | after the sync, the notifications are `Alerts` of the store and the best height and block change as `NewBest` says |
| Beacon.Beacon.AlertSkew | beacon.js:77-78 | the height alert is sent exactly when the extent is skewed |
| Beacon.Beacon.Announce | beacon.js:82-89 | the fork alert when `fork` is set; when the best height is above `this.bestHeight`, both fields take `checkFork`'s values and the notice is sent |
| Beacon.Push | beacon.js:125-131 | the node's hash is appended to its height's bucket, and the list of heights still names exactly the buckets |
| Beacon.ForkOf | beacon.js:137-146 | `fork` is set iff some bucket forks |
| Beacon.BestBlockOf | beacon.js:148-156 | `bestBlock` is the last hash of the bucket |
| Beacon.PromiseGate.constructor | beacon.js:10-16 | no last send and no emails yet |
| Beacon.PromiseGate.Send | beacon.js:25-42 | as written: `lastSend` is a fresh Promise and every subscriber is mailed, whatever was sent before |
| Beacon.RepeatAsWritten | beacon.js:28-30 | as written, the same subject on the same text twice mails every subscriber twice |

## Left out

- The node client (`lib/client.js`) and the network: each node's answer is an input `Response`, either a rejection or the parsed reply.
- The emailer (`lib/emailer.js`): each call of its `send` is an `Email` appended to a ghost log. A failing delivery is not modelled.
- The construction of the `Client` and `Emailer` objects in `BeaconConfig`, and `immutable`: the node names, subscribers and name are constant fields.
- `run` and `setInterval`: the model covers one `detect` pass at a time.
- Un-awaited alert sends: the three `send` calls of a pass are not awaited, so their emails could interleave. Each `send` computes its text and sets `lastSend` before its first `await`, so the dedup decisions are those of sequential calls. The model appends each send's emails in call order.
- `console` output, including the summary line of `send`.
- SHA-256 in `sendID`: the fingerprint is the (subject, text) pair itself, that is, a hash without collisions.
- `JSON.stringify` in `send`: the text is the ordered list of (name, value) entries it writes, with undefined values left out. The indentation is not modelled.
- `JSON.parse` in `config`: a given partial function (`Config.Parser`).
- Numbers: heights and counts are mathematical integers. Fractions, NaN, infinities and -0 are not modelled.
- Object key order: `for…in` lists integer-like keys first, in ascending order. The model takes insertion order for `results`. For the `heights` object it takes first appearance; the fork flag does not depend on that order.
- Values.Get: array indices, `length` and the built-in properties of strings and numbers are not modelled; the core reads only named properties of objects. On any value but an object, `Get` gives undefined.
- Inherited property names (`__proto__`, `constructor`, …) used as node names, hashes or environment keys.
- Config.Selected: `appname` is taken as a literal prefix; regular-expression metacharacters in it are not modelled.
- Config.Insert: the cursor walk builds a new tree instead of writing into the accumulator in place. A walk that passes through an array (a JSON array value followed by a deeper key) stops with the model-only error `ArrayCursor`.
- Utils.Merge: returns the merged value instead of mutating `left` in place, so aliasing between the two arguments or with the result is not modelled. The error of a null `left` does not carry the key name that V8 puts in its message.
- BeaconSpec.Chain: the `name` field pushed with each hash is never read by the core and is dropped.
- BeaconSpec.Extent: `low` and `high` are the least and the greatest heights, the evident intent of the sort. The as-written behaviour on V8 is `ExtentAsWritten` (see Findings). The model is proved for the intended version.

## Findings

| source | as written | input that shows it | evidently intended | confidence | as-written member | corrected member |
|---|---|---|---|---|---|---|
| beacon.js:28-30 | `sendID` is `async` and not awaited, so `id` is a fresh Promise, never `===` to the one stored in `lastSend`, and no notification is ever suppressed | the same alert twice on an unchanged store | compare the digests, so the repeat sends nothing | high; not executed | Beacon.RepeatAsWritten | BeaconSpec.NotifyDedup |
| beacon.js:103 | the comparator `(a, b) => a > b` returns a boolean, never a negative number; V8's TimSort then sees one ascending run and leaves the heights in store order, so `low`/`high` are the first and last stored heights | nodes at heights 103 then 100: `high - low` is -3 and no height alert fires | sort ascending, so `low`/`high` are the least and greatest heights and the alert fires | medium (depends on the engine's sort); not executed | BeaconSpec.SkewMissedAsWritten | BeaconSpec.HeightExtentBounds |
