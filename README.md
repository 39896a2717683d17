# Design-file converter front end: history store and document helpers

This project models the two pieces of logic in the converter's front end that
can be stated precisely, and proves properties about them in Dafny.

- **The conversion-history list** (`lib/storage.ts`). Local storage holds a list
  of history records under one key. A save either upserts a record keyed by its
  design URL or inserts it at the head, and the list is capped at ten entries.
  The list also supports delete by id, partial update by id, clear and read.
  Module `Storage`: a `HistoryStore` class whose single field `slot` is that
  storage entry, and whose methods follow the source step by step. Next to the
  class there are pure functions (`Saved`, `WithoutId`, `Updated`) that give the
  list each write produces. The lemmas state the properties of those functions.
- **The design-document helpers** (`lib/figma-api.ts`). Module `FigmaApi`:
  - the pre-order walk that collects the ids of `IMAGE` nodes. It uses an
    accumulator object `ImageCollector`, the shared array of the source, and is
    proved equal to a pure pre-order function;
  - the URL scanner that extracts a file id. It is a leftmost-match scan for
    `figma.com\/(file|proto|design)\/([a-zA-Z0-9]+)`, with the unescaped `.`
    and the greedy `+` written out.
- Module `Wrappers` holds `Option`. It stands for a missing optional field, and
  for the `null` the scanner returns.

Modelling decisions:
- The storage entry is `Slot = Absent | Corrupt | Stored(items)`. `Corrupt`
  stands for text that `JSON.parse` rejects; reading it gives the empty list.
- The current time (`new Date().toISOString()`) is a `now` parameter.
- A JavaScript optional property is an `Option`. Object spread `{...a, ...b}`
  keeps `a`'s value of such a property unless `b` carries it.
- A save of a URL already in the list merges into that entry at its current
  index and does not move it to the head (`lib/storage.ts:21-27`). Only new
  URLs go to the head (`lib/storage.ts:30`). So the cut to ten entries keeps
  the entries nearest the head, and a record whose URL was saved again recently
  can still be the one dropped. `SaveExistingUrl` states the in-place merge, and
  `TenMostRecentRemain` is stated only for distinct URLs.
- `slice(0, 10)` runs on both branches of a save. If a stored list already held
  more than ten entries and the matching entry sat at index ten or later, the
  merged entry is cut off. `SaveExistingUrl` states this case too.

## Model

| member | source | states |
|---|---|---|
| `Storage.FindIndex` | lib/storage.ts:19 | `findIndex`: the result is -1 exactly when no element satisfies the test; otherwise it is an index whose element satisfies the test and no earlier one does |
| `Storage.Take` | lib/storage.ts:37 | `slice(0, n)`: the first `n` elements, or the whole list when it is shorter, in their order |
| `Storage.Stamp` | lib/storage.ts:30-33 | the record a save inserts is the item with every field kept and `lastAccessed` set to `now` |
| `Storage.Merge` | lib/storage.ts:23-27 | the merged record takes the five required fields from the saved item, `format` from the item when it carries one and else from the old entry, and `lastAccessed` is `now` |
| `Storage.Patch` | lib/storage.ts:79-83 | each field the patch carries replaces the entry's, every other field keeps the entry's value, and `lastAccessed` is `now` whatever the patch says |
| `Storage.WithoutId` | lib/storage.ts:61 | the filtered list is no longer than the old one, and every element left is an old element whose id differs from the deleted one |
| `Storage.Updated` | lib/storage.ts:76-86 | there is no new list exactly when no entry has the id; otherwise the new list has the old length |
| `Storage.Saved` | lib/storage.ts:16-39 | the list a save writes never has more than ten entries |
| `Storage.HistoryStore.Get` | lib/storage.ts:42-55 | reading gives the stored list; an absent or unparseable entry reads as the empty list |
| `Storage.HistoryStore.Save` | lib/storage.ts:13-40 | the store afterwards holds `Saved(old list, item, now)`, at most ten entries; if the old URLs were distinct, the new list is within the bound and has distinct URLs |
| `Storage.HistoryStore.Delete` | lib/storage.ts:57-64 | the store afterwards holds the old list without the records of that id (written even when nothing matched); the bound and URL distinctness are kept |
| `Storage.HistoryStore.Clear` | lib/storage.ts:66-70 | the entry is removed, and reading afterwards gives the empty list |
| `Storage.HistoryStore.Update` | lib/storage.ts:72-87 | with no record of that id the store is left as it was (no write, even on an unparseable entry); otherwise it holds the patched list; bound and distinctness are kept when the patch does not set `figmaUrl` |
| `Storage.SaveNewUrl` | lib/storage.ts:28-37 | a URL not in the list: the stamped record is at index 0, the old entries follow in order, the length is one more but at most ten |
| `Storage.SaveExistingUrl` | lib/storage.ts:19-37 | a URL in the list: only its first entry changes, at the same index; required fields and a given `format` come from the item, a missing `format` keeps the old one, `lastAccessed` is `now`; the length is kept, up to ten |
| `Storage.SaveStampsEntry` | lib/storage.ts:23-37 | unless the URL's entry sits past the cut, the saved list has an entry for the URL whose `lastAccessed` is `now` |
| `Storage.SavePreservesDistinctUrls` | lib/storage.ts:19-37 | if the stored URLs are pairwise distinct before a save, they are after it |
| `Storage.DeleteMembership` | lib/storage.ts:61 | a record stays exactly when it was in the list and its id differs from the deleted one |
| `Storage.DeleteMissingId` | lib/storage.ts:60-63 | deleting an id no entry has leaves the list unchanged |
| `Storage.DeleteKeepsOrder` | lib/storage.ts:61 | filtering a concatenation is the concatenation of the filtered parts, so relative order is kept |
| `Storage.DeletePreservesDistinctUrls` | lib/storage.ts:60-63 | deleting keeps pairwise distinct URLs distinct |
| `Storage.UpdateMissingId` | lib/storage.ts:76-86 | an update writes nothing exactly when no entry has the id |
| `Storage.UpdateFirstMatch` | lib/storage.ts:76-86 | only the first entry with the id changes: each field the patch carries replaces the old one, others stay, `lastAccessed` is `now`; length and all other entries unchanged |
| `Storage.UpdatePreservesDistinctUrls` | lib/storage.ts:76-86 | an update whose patch does not set `figmaUrl` keeps URLs pairwise distinct |
| `Storage.FreshSavesKeepNewest` | lib/storage.ts:29-37 | saving new, pairwise distinct URLs in turn leaves the new stamped records newest first, then the old ones, cut to ten |
| `Storage.TenMostRecentRemain` | lib/storage.ts:29-37 | from an empty history, after ten or more saves of distinct URLs exactly ten records remain: the ten saved last, newest first |
| `FigmaApi.ImageIds` | lib/figma-api.ts:64-73 | an image node's own id comes first in its subtree's result; a node without `children` gives its own id when it is an image and nothing otherwise |
| `FigmaApi.ImageCollector.Traverse` | lib/figma-api.ts:64-74 | the walk appends to the accumulator exactly the pre-order image ids of the subtree |
| `FigmaApi.ExtractImageNodes` | lib/figma-api.ts:61-78 | the result is the pre-order image ids of the document: the root's id if it is an image, then each child's result in order; a node without `children` is a leaf |
| `FigmaApi.ImageIdsArePreOrderImages` | lib/figma-api.ts:62-77 | the ids returned are the ids of the image nodes of the pre-order node list, in that order |
| `FigmaApi.ImageIdsMembership` | lib/figma-api.ts:66-72 | an id is returned exactly when some `IMAGE` node of the tree, the root included, carries it |
| `FigmaApi.ImageIdsCount` | lib/figma-api.ts:62-77 | the result has one id per image node, duplicates counted separately; a tree without image nodes gives `[]` |
| `FigmaApi.AlnumRunLength` | lib/figma-api.ts:87 | the greedy `[a-zA-Z0-9]+` consumes a run of alphanumerics that ends at the end of the text or before a non-alphanumeric |
| `FigmaApi.KindAt` | lib/figma-api.ts:87 | the group `(file\|proto\|design)`: a result is one of the three kinds and occurs at the position; no result means none of them occurs there |
| `FigmaApi.MatchAt` | lib/figma-api.ts:87-90 | a match attempt at one position yields only a non-empty alphanumeric id |
| `FigmaApi.MatchAtIsPattern` | lib/figma-api.ts:87 | the attempt at `p` yields `id` exactly when `figma`, one non-line-terminator character, `com/`, one of `file`, `proto`, `design`, then `/` and the maximal alphanumeric run `id` (non-empty) occur at `p` |
| `FigmaApi.ScanFrom` | lib/figma-api.ts:88 | the scan yields only non-empty alphanumeric ids |
| `FigmaApi.ScanFromIsLeftmost` | lib/figma-api.ts:88 | a successful scan returns the attempt at a position before which no attempt succeeds |
| `FigmaApi.ScanFromNone` | lib/figma-api.ts:88-94 | the scan fails exactly when no attempt from the start position on succeeds |
| `FigmaApi.ExtractFigmaFileId` | lib/figma-api.ts:85-95 | a non-null result is non-empty and made only of ASCII letters and digits |
| `FigmaApi.ExtractFigmaFileIdIsLeftmost` | lib/figma-api.ts:87-91 | a returned id is the group of a pattern match at some position, and no match of any id starts earlier |
| `FigmaApi.ExtractFigmaFileIdNull` | lib/figma-api.ts:87-94 | the result is null exactly when the pattern matches nowhere, e.g. when the character after the final `/` is not alphanumeric |
| `FigmaApi.ExtractFromShape` | lib/figma-api.ts:87-91 | a URL of the form host (without the letter `f`), `figma`, any non-line-terminator, `com/`, a path kind, `/`, a non-empty alphanumeric id and a tail not starting with a letter or digit gives that id; e.g. `https://www.figma.com/file/ABC123/Title` gives `ABC123`, and `figmaXcom/proto/a1` gives `a1` since the `.` is unescaped |
| `FigmaApi.NoIdAfterSlash` | lib/figma-api.ts:87-94 | when the character after the final `/` is not a letter or digit, the attempt there fails although everything before it matched |

## Left out

- `fetchFigmaFile` and `fetchFigmaImages` (lib/figma-api.ts:9-54): network calls over `fetch`.
- `generateZipFile` (lib/figma-api.ts:104-111): a stub that returns a fixed blob.
- lib/mock-converter.ts: it returns fixed markup, style and asset literals, so there is nothing to state.
- The React pages and widgets under app/ and components/: UI state, animation, clipboard and downloads.
- `isValidFigmaUrl` and `formatDate` (lib/utils): that file is not part of this model.
- The `typeof window === "undefined"` guards: the server-side case, in which every operation does nothing and a read gives `[]`, is not modelled.
- Local storage is one entry, `slot`. The storage key `figma-to-html-history` and the other keys are not modelled.
- JSON serialisation is abstracted. A stored text that parses to something other than a list of records (`null`, a number) is not modelled. Reading could return such a value, and a later save would then fail on the `findIndex` call.
- An empty stored string reads as empty, just like an absent entry. The operations never write one, so the model has no separate case for it.
- `console.error` on a parse failure is left out. `Date` is replaced by the `now` parameter.
- Object spread of a property explicitly set to `undefined` is not modelled: it would overwrite the old value. The model treats a missing property as `None`.
- Stored records are assumed to have all required fields. Records whose fields JSON left out are not modelled.
- Strings are sequences of Dafny characters (Unicode scalar values), not UTF-16 code units. So a character outside the Basic Multilingual Plane between `figma` and `com` counts as one character here, while the regular expression's `.` would see two code units and fail to match.
- `extractImageNodes` on untyped input is not modelled: a truthy `children` value that is not an array, nodes without an `id`, and a `null` or non-object element of a `children` array, on which the walk throws when it reads the type (lib/figma-api.ts:66). In the model a node's `children` field is either missing or a list of nodes.
- `Storage.UpdatePreservesDistinctUrls`: only stated for a patch that does not set `figmaUrl`, because a patch that sets an existing URL on another entry does break distinctness in the source.
