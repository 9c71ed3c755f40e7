# Personal site editor: credentials, page editors and the photo-wall publish

This project models the editing side of a Next.js personal site that is
published through the GitHub API. It covers these parts:

- **Credential vault** (`config-store.ts`, `src/lib/auth.ts`, `src/hooks/use-auth.ts`):
  - The GitHub App private key is held in memory for the session.
  - It is persisted only AES-encrypted under a password.
  - It is unlocked on the login page.
  - It is exchanged, through an app JWT and an installation id, for an installation token.
  - That token is cached for the session.
- **Page editors**, each a stateful component with an edit mode:
  - the blog index (grouping, ordering, multi-select and delete of posts);
  - the projects page and its project cards;
  - the share page;
  - the about page;
  - the photo wall ("astro" page);
  - the write page's publish hook.
- **Photo-wall publish** (`push-pictures.ts`):
  - Uploads each staged file once per content hash.
  - Rewrites the wall's slots to the published URLs.
  - Deletes images the previous `list.json` referenced and the new one does not.
  - Commits everything in one tree on the configured branch.

How each part is shaped:

- Every component with state is a class. Its fields are the component's React state, and its handlers are methods with `modifies this`. Each handler's `ensures` states the complete new state.
- A ghost `Valid()` predicate holds each page's invariant, for example "outside edit mode the list is the published one". The handlers preserve it.
- Pure computations are functions: group keys, key ordering, tag parsing, the staged-slot maps, the commit tree. Lemmas prove their properties.
- Loops of the source are methods with loop invariants, proved equal to those functions:
  - staging an upload;
  - collecting and applying the slot renames;
  - the upload loop;
  - collecting URLs and deletions;
  - select-group.

The GitHub remote is a class that records every call in a trace.

- Call number `i` fails exactly when `i` is in its fault set.
- Every identifier the remote hands out (SHA, installation id, token) is fresh.
- This lets the publish be specified call by call. Its result ties the branch head to a commit whose tree and `list.json` blob are exactly those the wall determines.

Crypto, hashing, base64, file extensions and JSON are passed in as functions, and nothing is assumed about them.

Modules:

- `Wrappers`: `Option` and `Result`.
- `Js`: JavaScript string and number semantics the code relies on: `split`, `trim`, `startsWith`, `Number`, `parseInt`, `padStart`, `join`.
- `JsMap`: insertion-ordered `Map`.
- `Sorting`: a stable sort.
- `UrlList`: replace and remove a list entry by url.
- `Feedback`: toast kinds.
- `GitHub`: the remote.
- One module per source file of the core.

The config store (`src/app/(home)/stores/config-store.ts`) is outside the core, but the core reads and writes its credential fields, so its auth part is modelled as the `Auth.ConfigStore` class:

- `Auth.ConfigStore.constructor` (lines 46-48): the store starts with no ciphertext, no key in memory and not hydrated.
- `Auth.ConfigStore.Restored` (lines 76-82): after a reload only the persisted ciphertext comes back; the key is empty and the store is hydrated.
- `Auth.ConfigStore.SetAuth` (lines 59-68): the key is always held in memory; the ciphertext is replaced by the key encrypted under the password only when a password is given.
- `Auth.ConfigStore.Logout` (line 69): ciphertext and key are both cleared.
- `Auth.ConfigStore.SetHydrated` (line 70): only the hydration flag changes.

## Model

| member | source | states |
|---|---|---|
| Auth.TokenCache.constructor | src/lib/auth.ts:6 | The session-storage token entry starts empty. |
| Auth.Broker | src/lib/auth.ts:38-58 | A non-empty cached token is returned with no remote call. "Not authenticated" happens exactly when there is neither a cached token nor a key. Otherwise the first call signs the in-memory key. A success makes exactly three calls, none of them failing, and yields a non-empty token. An upstream failure means the calls before the failing one succeeded. |
| Auth.GetAuthToken | src/lib/auth.ts:38-58 | The result, the calls appended to the remote's trace and the identifiers minted are exactly those of `Broker`. The cache holds the new token after a success and is unchanged after a failure. The branch and its files are untouched. |
| Auth.ClearAllAuthCache | src/lib/auth.ts:11-15 | The cached token is gone. |
| Auth.TokenReused | src/lib/auth.ts:39-54 | Once a call has obtained a token, the next call returns that same token with no remote call, whatever the key and the remote then are. |
| Auth.ClearedCacheRebrokers | src/lib/auth.ts:20-29 | With an empty cache, `hasAuth` decides the next call: without a key it fails as not authenticated and makes no call; with a key it re-brokers, signing exactly the key `getPemFromCache` returns. |
| AuthHook.AuthStore.constructor | src/hooks/use-auth.ts:26-27 | `isAuth` is `hasAuth` of the config store, and `privateKey` is its in-memory key. |
| AuthHook.AuthStore.GetToken | src/hooks/use-auth.ts:34-36 | Behaves exactly as `getAuthToken`, and the hook's own fields are unchanged. |
| AuthHook.AuthStore.Logout | src/hooks/use-auth.ts:38-42 | The token cache is cleared, `isAuth` becomes false and `privateKey` null. The config store's key and ciphertext are kept. |
| AuthHook.LogoutKeepsBrokering | src/hooks/use-auth.ts:38-42 | After the hook's logout a key still in memory keeps working: the next token request re-brokers, signing that key, and is never refused as not authenticated. |
| Login.Decide | src/app/login/page.tsx:17-43 | With a stored ciphertext the page never initializes; without one it never unlocks. A rejection carries either the wrong-password or the missing-input message. |
| Login.LoginPage.constructor | src/app/login/page.tsx:12-14 | Password, file content and error all start empty. |
| Login.LoginPage.HandleAction | src/app/login/page.tsx:17-43 | The store and the page change exactly as `Decide` says. An unlock puts the decrypted key in memory, keeps the ciphertext and navigates home. A setup puts the key in memory, stores it encrypted under the password and navigates home. A rejection sets the error and changes no credential. |
| Login.UnlockIffHeader | src/app/login/page.tsx:20-33 | Unlocking succeeds exactly when decryption yields text starting with `-----BEGIN`, and the key then held is that plaintext. Every other case is "wrong password". |
| Login.SetupNeedsBothInputs | src/app/login/page.tsx:34-42 | First-time setup is rejected exactly when the key file or the password is missing. Otherwise it initializes with both. |
| Login.SetupThenUnlock | src/app/login/page.tsx:17-43 | For a cipher that decrypts its own output, a PEM key set up under a password is unlocked again by that password. |
| Login.HeaderlessSetupLocksOut | src/app/login/page.tsx:34-42 | Setup accepts a key file that lacks the PEM header. That key can never be unlocked with its own password afterwards. |
| Astro.SlotParts | src/app/astro/services/push-pictures.ts:57 | The index part of a staged key is present exactly when splitting at `::` yields more than one piece. |
| Astro.SlotKeyParts | src/app/projects/astro/page.tsx:62 | The key staged for picture `id` and index `n` splits back into `id` and the digits of `n`, and `Number` of those digits is `n`. |
| Astro.SlotKeyStartsWithPrefix | src/app/projects/astro/page.tsx:91 | Every key staged for a picture starts with that picture's `id::` prefix. |
| Astro.SlotKeyInjective | src/app/projects/astro/page.tsx:62 | Distinct (picture, index) pairs are staged under distinct keys. |
| Slots.SlotKeyIs | src/app/projects/astro/page.tsx:62 | A staged key parses back to its picture id and its index. |
| Slots.SlotKeyNumber | src/app/projects/astro/page.tsx:98-99 | `Number` of the part after `::` is the key's slot index. |
| Slots.PrefixMeansId | src/app/projects/astro/page.tsx:97 | A staged key starts with `pid::` exactly when it belongs to picture `pid`. |
| Slots.WellKeyedDelete | src/app/projects/astro/page.tsx:94 | Deleting one key keeps the staged map's keys distinct and in upload order. |
| Slots.StagedSpec | src/app/projects/astro/page.tsx:59-64 | After staging, slot `i` of the new picture holds image `i` when that image is a file, and keeps its old value otherwise. Keys of other pictures, and indexes past the upload, are unchanged. Keys stay distinct. |
| Slots.StagedFresh | src/app/projects/astro/page.tsx:59-64 | Staging under a fresh id keeps the map well keyed, and every slot staged for that id has an index below the number of images. |
| Slots.WithoutPrefixedGet | src/app/projects/astro/page.tsx:90-92 | Deleting while iterating the keys removes exactly the keys with the prefix and leaves every other value in place. |
| Slots.RemoveSlotsSpec | src/app/projects/astro/page.tsx:89-92 | Every staged slot of the picture is gone, and every other key keeps its value. |
| Slots.RenamesPlan | src/app/projects/astro/page.tsx:95-107 | The collected renames are exactly the picture's keys above the deleted index, in map order, each renamed to the index one lower. |
| Slots.ApplyPlan | src/app/projects/astro/page.tsx:108-114 | Applying the renames one after another never overwrites a key still waiting to move. The result is the untouched entries followed by the moved ones. |
| Slots.ReindexSpec | src/app/projects/astro/page.tsx:93-115 | After deleting image `n`, slot `j` of the picture holds what slot `j` held (for `j < n`) or what slot `j + 1` held (for `j >= n`). Keys of other pictures are unchanged. |
| Slots.ReindexKeepsShape | src/app/projects/astro/page.tsx:93-115 | Deleting an image and re-indexing keeps the staged map's keys distinct and in upload order. |
| AstroPage.Description | src/app/projects/astro/page.tsx:49 | The stored description is the trimmed input when that is non-empty, and absent when the input trims to nothing. |
| AstroPage.RemoveIndex | src/app/projects/astro/page.tsx:78 | Exactly image `n` is dropped: one image fewer when `n` is in range, and later images shift down by one. |
| AstroPage.WithoutGroupSpec | src/app/projects/astro/page.tsx:122 | The wall keeps exactly the pictures of other ids, and each other id still finds its own picture. |
| AstroPage.WithoutImagePictureOf | src/app/projects/astro/page.tsx:72-85 | Deleting an image leaves every other id's picture alone. The edited picture, when it survives, is what the per-picture edit makes of it. |
| AstroPage.PictureOfAppend | src/app/projects/astro/page.tsx:66 | Appending a picture leaves existing ids resolving as before, and a new id resolves to the new picture. |
| AstroPage.UploadConsistent | src/app/projects/astro/page.tsx:41-69 | An upload under a fresh id keeps every staged file shown, by its preview URL, at its own slot of its own picture. |
| AstroPage.UploadedSlotShown | src/app/projects/astro/page.tsx:59-64 | Every slot staged for the new picture lies within its images and holds the image at that index. |
| AstroPage.DeleteGroupConsistent | src/app/projects/astro/page.tsx:120-130 | Deleting a whole group keeps every remaining staged file at the slot that shows it. |
| AstroPage.DeleteSingleConsistent | src/app/projects/astro/page.tsx:71-92 | Deleting a picture through the `'single'` path keeps every remaining staged file at the slot that shows it. |
| AstroPage.DeleteImageConsistent | src/app/projects/astro/page.tsx:71-118 | Deleting image `n` and re-indexing the staged keys keeps every staged file at the slot that shows it. |
| AstroPage.Stage | src/app/projects/astro/page.tsx:59-64 | The staging loop computes `Staged`. |
| AstroPage.DropSlots | src/app/projects/astro/page.tsx:89-92 | The deleting loop computes `RemoveSlots`. |
| AstroPage.CollectRenames | src/app/projects/astro/page.tsx:95-107 | The collecting loop computes the renames of the map's keys in order. |
| AstroPage.MoveSlots | src/app/projects/astro/page.tsx:108-114 | The moving loop applies the renames in order. |
| AstroPage.ButtonText | src/app/projects/astro/page.tsx:167 | The save button reads "保存" exactly when the store is hydrated and a key is in memory. |
| AstroPage.ConsistentOnWall | src/app/projects/astro/page.tsx:59-63 | Every file the page stages is keyed by a slot of a picture on its wall. |
| AstroPage.ErrorText | src/app/projects/astro/page.tsx:154 | The failure toast's detail is never empty. |
| AstroPage.AstroPageState.constructor | src/app/projects/astro/page.tsx:29-34 | The wall from `list.json` is both the current and the saved copy. Nothing is staged, no dialog is open and edit mode is off. |
| AstroPage.AstroPageState.HandleUploadSubmit | src/app/projects/astro/page.tsx:41-69 | An empty upload only shows an error. Otherwise the new picture is appended, its files are staged under its slot keys and the dialog closes. A fresh id keeps the page consistent. |
| AstroPage.AstroPageState.HandleDeleteSingleImage | src/app/projects/astro/page.tsx:71-118 | The wall loses the image, or the whole picture for `'single'`. The staged files lose that picture's slots (`'single'`) or are re-indexed. Consistency is preserved. |
| AstroPage.AstroPageState.HandleDeleteGroup | src/app/projects/astro/page.tsx:120-130 | Without confirmation nothing changes. With it, the group and all its staged slots are removed and consistency is preserved. |
| AstroPage.AstroPageState.HandleSave | src/app/projects/astro/page.tsx:133-158 | Without a key: an error toast, no remote call and no change. A success means the branch head is a commit publishing the current wall; then the saved copy is the wall, nothing stays staged and edit mode ends. A failure keeps every edit and the branch head. |
| AstroPage.AstroPageState.PushWall | src/app/projects/astro/page.tsx:141-146 | A successful `pushPictures` leaves the branch on a commit that publishes the page's pictures and staged files. A failed one leaves the branch head where it was. |
| AstroPage.AstroPageState.SaveSettled | src/app/projects/astro/page.tsx:148-157 | A success makes the wall the saved copy, clears the staged files, leaves edit mode and shows the success toast. A failure keeps the saved copy, the staged files and the mode, and shows an error. Saving is over either way. |
| AstroPage.AstroPageState.HandleCancel | src/app/projects/astro/page.tsx:160-164 | The saved wall comes back, nothing stays staged and edit mode ends. |
| AstroPage.AstroPageState.HandleKeyDown | src/app/projects/astro/page.tsx:169-178 | Ctrl/Cmd + `,` outside edit mode enters edit mode and is consumed. It needs no key. Nothing else changes. |
| PushPictures.UploadBlob | src/app/astro/services/push-pictures.ts:44-55 | A successful blob call appends one `createBlob` of the file's base64 to the trace, and appends a tree entry carrying the new SHA. A failed one ends the run. |
| PushPictures.UploadImages | src/app/astro/services/push-pictures.ts:33-72 | The loop issues exactly one blob call per distinct content hash, in map order, stopping at the first failure. On success the tree entries carry the minted SHAs, and the pictures are rewritten slot by slot to the published URLs. |
| PushPictures.CollectUrls | src/app/astro/services/push-pictures.ts:74-80 | The loop collects every URL of every picture, each once. |
| PushPictures.CollectDeletes | src/app/astro/services/push-pictures.ts:105-116 | The loop collects the deletion entries. |
| PushPictures.CollectTree | src/app/astro/services/push-pictures.ts:84-120 | One read of the previous `list.json`. On success the tree items are the uploads followed by deletions of every previously referenced photo-wall image the new wall no longer uses. |
| PushPictures.Commit | src/app/astro/services/push-pictures.ts:122-140 | The calls are, in order: the `list.json` blob of the rewritten pictures, a tree of the items plus that blob on top of the old head, a commit with the fixed message whose only parent is the old head, and the ref update. On success the branch points at that commit. |
| PushPictures.Finish | src/app/astro/services/push-pictures.ts:84-140 | Everything after the uploads runs as planned. On success the new head's commit, tree and list blob were created from this wall. |
| PushPictures.PushWithToken | src/app/astro/services/push-pictures.ts:22-140 | With a token in hand, the remote sees exactly the planned calls until the first failure. On success the branch head is a commit wired to the tree and list blob this wall determines. |
| PushPictures.Push | src/app/astro/services/push-pictures.ts:16-143 | A broker failure is reported as such, after only the broker's calls, with the branch untouched. Otherwise the remote sees exactly the planned calls, stopping at the first failure. On success the branch head is a commit whose parent is the old head, whose tree holds the uploads, deletions and new `list.json`, and whose list blob is the rewritten wall. |
| PushPictures.UploadsHashes | src/app/astro/services/push-pictures.ts:44-55 | Identical content is uploaded once: the uploads carry pairwise distinct hashes, one for every hash among the staged files. |
| PushPictures.UploadsFirst | src/app/astro/services/push-pictures.ts:44-55 | Each upload is made from the first staged file carrying its hash. |
| PushPictures.UrlItemsIgnored | src/app/astro/services/push-pictures.ts:36 | Staged URL items cause neither an upload nor a rewrite. |
| PushPictures.RewriteSlotSpec | src/app/astro/services/push-pictures.ts:60-69 | Pictures of other ids are untouched. A picture of the group loses `image`, and its `images` are its current images with only the slot at the index replaced by the URL. |
| PushPictures.LegacyImagePromoted | src/app/astro/services/push-pictures.ts:62 | A picture that has only a single `image` is rewritten to a one-element `images`: the new URL at index 0, the old image otherwise. |
| PushPictures.SlotTargetSpec | src/app/astro/services/push-pictures.ts:57-58 | A key staged for `id` and `n` targets slot `n` of `id`. A key whose index part is not a number targets slot 0. |
| PushPictures.DeleteEntriesSpec | src/app/astro/services/push-pictures.ts:105-116 | A deletion is issued exactly for each previous URL that is under `/images/astro/` and missing from the new wall. There are never more deletions than previous URLs. |
| PushPictures.DeleteEntryPath | src/app/astro/services/push-pictures.ts:107-108 | A deletion targets `public/images/astro/` followed by the URL's file name. |
| PushPictures.NoPreviousNoDeletes | src/app/astro/services/push-pictures.ts:92-120 | A missing or unparsable previous `list.json` deletes nothing. |
| PushPictures.UploadPaths | src/app/astro/services/push-pictures.ts:38-45 | Every upload lands at `public/images/astro/` + hash + the extension of the first file with that hash. |
| PushPictures.DeletePaths | src/app/astro/services/push-pictures.ts:107-114 | Deletion entries lie under `public/images/astro/`, with a null SHA and mode `100644`. |
| PushPictures.TreeShape | src/app/astro/services/push-pictures.ts:126-134 | The tree lists the uploads with their minted SHAs in order, then the deletions, then the `list.json` entry last. No other entry touches `list.json`. |
| PushPictures.UploadPathsDistinct | src/app/astro/services/push-pictures.ts:38-55 | When all hashes have one width, no two uploads share a path. |
| PushPictures.DeletePathsDistinct | src/app/astro/services/push-pictures.ts:95-116 | No two deletions share a path. |
| PushPictures.FileSlotPublished | src/app/astro/services/push-pictures.ts:57-69 | The public URL of every staged file is on the rewritten wall. |
| PushPictures.TreePathsDistinct | src/app/astro/services/push-pictures.ts:29-131 | When every staged key names a slot on the wall and all hashes have one width, the tree has at most one entry per path: no upload is also deleted, and nothing else touches `list.json`. |
| PushPictures.UnbackedDuplicateUrl | src/app/astro/services/push-pictures.ts:37-69 | A file whose content was already uploaded under another extension still puts `/images/astro/` + hash + its own extension on the wall, and no tree entry writes that path. |
| BlogPage.GroupKey | src/app/blog/page.tsx:65-87 | In category mode the key is the category, or "未分类" when it is empty or absent. In week mode it is the year-week key. |
| BlogPage.Newest | src/app/blog/page.tsx:57 | The display order is a permutation of the items, newest first. |
| BlogPage.MembersSpec | src/app/blog/page.tsx:90-93 | A group's members are exactly the items whose key is the group's. |
| BlogPage.GroupedSpec | src/app/blog/page.tsx:59-97 | The grouping has one entry per key, holding the items with that key in display order. |
| BlogPage.MembersSorted | src/app/blog/page.tsx:57-93 | Each group stays newest first. |
| BlogPage.GroupsPartition | src/app/blog/page.tsx:56-97 | Every item lands in the group of its key. Groups are non-empty, newest first, and hold only items of their own key. |
| BlogPage.StrLessIrreflexive | src/app/blog/page.tsx:105 | The string order used for `localeCompare` never puts a key before itself. |
| BlogPage.StrLessTransitive | src/app/blog/page.tsx:105 | That string order is transitive. |
| BlogPage.StrLessTotal | src/app/blog/page.tsx:105 | That string order ranks any two distinct keys. |
| BlogPage.CategoryRank | src/app/blog/page.tsx:101-103 | A listed category ranks at its last position in the list, as the `Map` built from the list keeps. An unlisted one ranks at `MAX_SAFE_INTEGER`. |
| BlogPage.KeyOrderStrict | src/app/blog/page.tsx:99-114 | In every display mode the key comparator is a strict order. |
| BlogPage.GroupKeysOrdered | src/app/blog/page.tsx:99-114 | The group keys shown are a permutation of the grouping's keys, in comparator order. |
| BlogPage.CategoryKeyOrder | src/app/blog/page.tsx:100-106 | Listed categories come before unlisted ones. Listed ones are ordered by their rank, unlisted ones by string order. |
| BlogPage.WeekKeyParts | src/app/blog/page.tsx:108 | Splitting a week key at `-W` gives back its year and its week. |
| BlogPage.WeekKeyOrder | src/app/blog/page.tsx:107-111 | Week keys are ordered by newer year first, then by higher week. |
| BlogPage.ReverseKeyOrder | src/app/blog/page.tsx:113 | In day, month and year mode, distinct keys are in reverse string order. |
| BlogPage.Toggle | src/app/blog/page.tsx:133-140 | The slug is selected afterwards exactly when it was not before. Every other slug keeps its selection. |
| BlogPage.ToggleTwice | src/app/blog/page.tsx:133-140 | Toggling a slug twice restores the selection. |
| BlogPage.Without | src/app/blog/page.tsx:171 | Deleting the selection keeps exactly the unselected items. |
| BlogPage.RemovedSlugs | src/app/blog/page.tsx:183 | A slug is removed exactly when it belongs to a loaded post that is missing from the edited list. |
| BlogPage.RemovedInLoadedOrder | src/app/blog/page.tsx:183 | The removed slugs are those of the loaded posts missing from the edited list, in loaded order. |
| BlogPage.RemovedAfterDelete | src/app/blog/page.tsx:169-183 | After deleting the selection, the removed slugs are exactly the selected slugs of the loaded posts, in order. |
| BlogPage.ChangesAreRemovals | src/app/blog/page.tsx:184-186 | While the category list is the server's, there are changes exactly when some post was removed. |
| BlogPage.UneditedHasNoChanges | src/app/blog/page.tsx:185-191 | An untouched list with the server's categories reports no changes. |
| BlogPage.SelectGroup | src/app/blog/page.tsx:146-158 | An unknown group changes nothing, and slugs outside the group keep their selection. A fully selected group is deselected; otherwise the whole group becomes selected. |
| BlogPage.SelectMembers | src/app/blog/page.tsx:149-157 | The loop over the group's items computes `SelectGroup`. |
| BlogPage.BlogIndexState.constructor | src/app/blog/page.tsx:35-52 | The page mounts in year mode, not editing, with nothing selected and the server's categories as the list. |
| BlogPage.BlogIndexState.IndexLoaded | src/app/blog/page.tsx:44-48 | A new index replaces the items, and replaces the editable copy only outside edit mode. |
| BlogPage.BlogIndexState.CategoriesLoaded | src/app/blog/page.tsx:50-52 | The category list becomes the server's list, or empty when the server has none. |
| BlogPage.BlogIndexState.SetDisplayMode | src/app/blog/page.tsx:243 | Only the display mode changes. |
| BlogPage.BlogIndexState.ToggleEditMode | src/app/blog/page.tsx:125-131 | Edit mode flips. Leaving it restores the editable copy and clears the selection. |
| BlogPage.BlogIndexState.ToggleSelect | src/app/blog/page.tsx:133-140 | The selection is toggled for that slug. |
| BlogPage.BlogIndexState.HandleItemClick | src/app/blog/page.tsx:162-167 | In edit mode a click toggles the slug and is consumed. Outside it nothing changes. |
| BlogPage.BlogIndexState.HandleSelectAll | src/app/blog/page.tsx:142-144 | The selection becomes every editable slug. |
| BlogPage.BlogIndexState.HandleDeselectAll | src/app/blog/page.tsx:160 | The selection becomes empty. |
| BlogPage.BlogIndexState.HandleSelectGroup | src/app/blog/page.tsx:146-158 | The selection becomes `SelectGroup` of the group shown under that key. |
| BlogPage.BlogIndexState.HandleDeleteSelected | src/app/blog/page.tsx:169-173 | With an empty selection nothing changes. Otherwise the selected posts leave the editable list and the selection is cleared. |
| BlogPage.BlogIndexState.HandleCancel | src/app/blog/page.tsx:175-179 | The editable copy comes back, the selection is cleared and edit mode ends. |
| BlogPage.BlogIndexState.HandleSave | src/app/blog/page.tsx:182-211 | Without changes: only an info toast. Without a key: an error. Otherwise the save carries the loaded and edited posts, the trimmed non-empty categories and the key. A success leaves edit mode and clears the selection and the modal; a failure keeps everything. |
| BlogPage.BlogIndexState.SaveSettled | src/app/blog/page.tsx:198-210 | A success leaves edit mode with the selection and the modal cleared. A failure keeps them. Saving is over either way. |
| BlogPage.BlogIndexState.HandleKeyDown | src/app/blog/page.tsx:213-222 | Ctrl/Cmd + `,` outside edit mode is always consumed, but enters edit mode only with a key in memory. |
| Sorting.SortBy | src/app/blog/page.tsx:57 | Sorting permutes the items. |
| Sorting.SortBySorted | src/app/blog/page.tsx:57 | Under a strict order, the sorted items are in that order. |
| UrlList.ReplaceUrl | src/app/projects/page.tsx:27 | The list keeps its length. Entries with the old url become the update, and all others are kept. |
| UrlList.RemoveUrlMembers | src/app/projects/page.tsx:53 | Deleting keeps exactly the entries with a different url. |
| UrlList.ReplaceIdempotent | src/app/projects/page.tsx:27 | Replacing with an entry of the same url twice is the same as once. |
| UrlList.ReplaceAbsent | src/app/projects/page.tsx:27 | Replacing an absent url changes nothing. |
| UrlList.RemoveReplaced | src/app/projects/page.tsx:53 | Deleting a url after replacing its entry equals deleting it directly. |
| UrlList.RemoveConcat | src/app/projects/page.tsx:53 | Deletion distributes over concatenation. |
| UrlList.RemoveNone | src/app/projects/page.tsx:53 | Deleting an absent url changes nothing. |
| UrlList.AppendThenRemove | src/app/projects/page.tsx:47-53 | Adding an entry with a new url and then deleting it restores the list. |
| ProjectsPage.ProjectsPageState.constructor | src/app/projects/page.tsx:14-20 | The bundled list is both current and published. Nothing is pending, no dialog is open and edit mode is off. |
| ProjectsPage.ProjectsPageState.HandleUpdate | src/app/projects/page.tsx:26-35 | The edited card replaces the entry with its old url. A submitted image is recorded under the new url. |
| ProjectsPage.ProjectsPageState.HandleAdd | src/app/projects/page.tsx:37-40 | The create dialog opens with no project to edit. |
| ProjectsPage.ProjectsPageState.HandleSaveProject | src/app/projects/page.tsx:42-49 | A project being edited is replaced by url; otherwise the new project is appended. |
| ProjectsPage.ProjectsPageState.HandleDelete | src/app/projects/page.tsx:51-55 | After confirmation every entry with the project's url is removed. Otherwise nothing changes. |
| ProjectsPage.ProjectsPageState.HandleSave | src/app/projects/page.tsx:58-83 | Without a key: an error and no request. Otherwise the list, the pending images and the key are pushed. A success publishes the list, clears pending images and leaves edit mode; a failure keeps everything. |
| ProjectsPage.ProjectsPageState.HandleCancel | src/app/projects/page.tsx:85-89 | The published list comes back, pending images are dropped and edit mode ends. |
| ProjectsPage.ProjectsPageState.EnterEditMode | src/app/projects/page.tsx:162-166 | Edit mode is entered and nothing else changes. |
| ProjectsPage.ProjectsPageState.HandleKeyDown | src/app/projects/page.tsx:91-104 | Ctrl/Cmd + `,` outside edit mode enters edit mode, and is consumed, only with a key in memory. |
| SharePage.SharePageState.constructor | src/app/share/page.tsx:15-21 | The bundled list is both current and published. No logo is pending and edit mode is off. |
| SharePage.SharePageState.HandleUpdate | src/app/share/page.tsx:27-36 | The edited share replaces the entry with its old url. A submitted logo is recorded under the new url. |
| SharePage.SharePageState.HandleAdd | src/app/share/page.tsx:38-41 | The create dialog opens with no share to edit. |
| SharePage.SharePageState.HandleSaveShare | src/app/share/page.tsx:43-50 | A share being edited is replaced by url; otherwise the new share is appended. |
| SharePage.SharePageState.HandleDelete | src/app/share/page.tsx:52-56 | After confirmation every entry with the share's url is removed. Otherwise nothing changes. |
| SharePage.SharePageState.HandleSave | src/app/share/page.tsx:59-84 | Without a key: an error and no request. Otherwise the shares, pending logos and key are pushed. A success publishes, clears the logos and leaves edit mode; a failure keeps everything. |
| SharePage.SharePageState.HandleCancel | src/app/share/page.tsx:86-90 | The published list comes back, pending logos are dropped and edit mode ends. |
| SharePage.SharePageState.EnterEditMode | src/app/share/page.tsx:151-155 | Edit mode is entered and nothing else changes. |
| SharePage.SharePageState.HandleKeyDown | src/app/share/page.tsx:92-105 | Ctrl/Cmd + `,` outside edit mode enters edit mode, and is consumed, only with a key in memory. |
| ProjectCard.Apply | src/app/projects/components/project-card.tsx:37-39 | A field change sets that field to the value and leaves every other field as it was. |
| ProjectCard.EditUndone | src/app/projects/components/project-card.tsx:37-41 | Changing a field back to its old value restores the project. |
| ProjectCard.ParseTags | src/app/projects/components/project-card.tsx:51-57 | Every parsed tag is non-empty and trimmed. |
| ProjectCard.TagsRoundTrip | src/app/projects/components/project-card.tsx:51-57 | Tags shown joined by `, ` parse back to themselves when each is trimmed, non-empty and comma-free. |
| ProjectCard.YearInput | src/app/projects/components/project-card.tsx:133 | The year is `parseInt` of the input, or 0 when that is NaN. |
| ProjectCard.YearRoundTrip | src/app/projects/components/project-card.tsx:133 | Typing the displayed year gives that year back. |
| ProjectCard.OptionalInput | src/app/projects/components/project-card.tsx:181 | An emptied GitHub or npm input unsets the link, and a link is never the empty string. |
| ProjectCard.OptionalRoundTrip | src/app/projects/components/project-card.tsx:180-181 | The displayed value of a link parses back to that link. |
| ProjectCard.LinkViewOf | src/app/projects/components/project-card.tsx:198-202 | A url starting with `/` opens in the same tab as "Open App". Any other opens in a new tab as "Website". |
| ProjectCard.Navigation | src/app/projects/components/project-card.tsx:66-73 | The router is pushed to the url exactly when it starts with `/`, which is exactly when the link is rendered for the same tab; every other link keeps its new-tab default. |
| ProjectCard.ProjectCardState.constructor | src/app/projects/components/project-card.tsx:30-34 | The local copy is the prop, and the card is not editing, shows no dialog and holds no image. |
| ProjectCard.ProjectCardState.HandleFieldChange | src/app/projects/components/project-card.tsx:37-41 | The local copy gets the field change, and the page is sent the new copy, the card's current prop and the held image. |
| ProjectCard.ProjectCardState.HandleTagsChange | src/app/projects/components/project-card.tsx:51-57 | The tags become the parsed input, and the page is sent the update. |
| ProjectCard.ProjectCardState.HandleImageSubmit | src/app/projects/components/project-card.tsx:43-49 | The image is held, the local copy shows its URL, and the page is sent the update with that image. |
| ProjectCard.ProjectCardState.HandleCancel | src/app/projects/components/project-card.tsx:59-63 | The local copy goes back to the current prop, editing ends and the held image is dropped. Edits the page already stored come back in that prop, so they are not undone. |
| ProjectCard.ProjectCardState.ReceiveProp | src/app/projects/page.tsx:112-119 | A new prop under the same `url` key keeps every piece of local state. A prop with another `url` mounts a fresh card: the local copy is the prop, nothing is edited, shown or held. |
| ProjectCard.ProjectCardState.CancelAfterReportedEdit | src/app/projects/components/project-card.tsx:37-63 | An edit to any field but the `url`, which the page stores and passes back as the prop, survives a later cancel: the local copy and the prop both hold the edit, and editing ends. |
| ProjectCard.ProjectCardState.SetEditing | src/app/projects/components/project-card.tsx:89-95 | Only the editing flag changes. |
| ProjectCard.ProjectCardState.HandleImageClick | src/app/projects/components/project-card.tsx:112 | The image dialog opens only when the page is in edit mode and the card is editing. |
| Publish.SuccessMessage | src/app/write/hooks/use-publish.ts:38 | The success toast is "更新成功" exactly in edit mode and "发布成功" exactly in create mode. |
| Publish.TargetSlug | src/app/write/hooks/use-publish.ts:49 | A non-empty original slug wins, then a non-empty form slug. There is no target exactly when both are missing or empty. |
| Publish.WriteStore.constructor | src/app/write/hooks/use-publish.ts:11 | The store holds the form slug, mode and original slug, and is not loading. |
| Publish.IsAuth | src/app/write/hooks/use-publish.ts:75 | `isAuth` agrees with `hasAuth`. |
| Publish.OnPublish | src/app/write/hooks/use-publish.ts:19-46 | Without a key: failure, no request and no loading flag. Otherwise the request carries the form, mode, original slug and key. `loading` is set then reset, and a success reports the mode's message. |
| Publish.OnDelete | src/app/write/hooks/use-publish.ts:48-71 | A missing slug is refused first, then a missing key. Otherwise the delete targets `TargetSlug` with the key, bracketed by `loading`, and a success reports "删除成功". |
| AboutPage.Apply | src/app/about/page.tsx:105-122 | Each input changes its own field and no other. |
| AboutPage.AboutPageState.constructor | src/app/about/page.tsx:14-18 | The bundled data is both current and saved, and neither editing nor preview is on. |
| AboutPage.AboutPageState.HandleEnterEditMode | src/app/about/page.tsx:25-28 | Edit mode on, preview off, data untouched. |
| AboutPage.AboutPageState.TogglePreview | src/app/about/page.tsx:181 | Only preview mode flips. |
| AboutPage.AboutPageState.HandleEdit | src/app/about/page.tsx:105-122 | The data gets the field edit and nothing else changes. |
| AboutPage.AboutPageState.HandleSave | src/app/about/page.tsx:31-52 | Without a key: an error and no request. Otherwise the data and key are pushed. A success makes the data the saved copy and leaves edit and preview; a failure keeps both modes and every edit. |
| AboutPage.AboutPageState.HandleCancel | src/app/about/page.tsx:54-58 | The saved data comes back, and edit and preview end. |
| AboutPage.AboutPageState.HandleKeyDown | src/app/about/page.tsx:60-74 | Ctrl/Cmd + `,` outside edit mode enters edit mode with preview off, and is consumed, only with a key in memory. |
| AboutPage.AboutPageState.ShortcutAsButton | src/app/about/page.tsx:198-202 | Whenever the manage button is shown, the shortcut is consumed and does what the button does: edit mode on, preview off, the data, the saved copy and the notice untouched. |

## Left out

- The GitHub client, the file utilities and the site constants are not part of this model.
  - The remote is the `GitHub.Remote` class: a call trace, a fault set and fresh identifiers.
  - `signAppJwt`, `getInstallationId` and `createInstallationToken` are remote calls in that trace.
  - Their error messages are not modelled.
- AES, SHA-256 hashing, base64 encoding, `getFileExt`, `JSON.stringify` and `JSON.parse` are function parameters; nothing is assumed about them. `JSON.parse` returns `None` where it would throw.
- The services the other pages call are not part of this model: `saveBlogEdits`, `pushProjects`, `pushShares`, `pushAbout`, `pushBlog`, `deleteBlog`. Their outcome is a boolean parameter, and the request they receive is returned.
- Async interleaving is not modelled. Each handler runs to completion. The `saving` / `loading` flags are observed only before and after, and `OnPublish` / `OnDelete` report the values written in order.
- Several inputs from the environment are parameters:
  - `confirm()` answers;
  - `Date.now()` and `Math.random()` ids;
  - the ISO timestamp;
  - dayjs dates: a blog item carries its year, month, day and week already computed.
- Toast wording is reduced to the toast kind, except for the messages the properties mention. Info toasts during a publish are not modelled.
- `String.prototype.localeCompare` is modelled as code-unit order.
- `Number()` accepts trimmed, optionally signed decimal digits, and `""` is 0. Fractions (`"1.5"`, `".5"`, `"2.0"`), hex, exponent and `Infinity` forms are NaN in the model, though JavaScript reads them as numbers.
- Js.ParseInt: radix 10 only. The `0x` prefix that `parseInt` reads as hexadecimal is not modelled, so `"0x1A"` gives 0 rather than 26.
- Insertion order of JavaScript objects is modelled as that of `Map`. Integer-like group keys, which `Object.keys` would list first, are not treated specially, since the key comparator sorts the keys anyway.
- Hydration from local storage is modelled only as the `Restored` constructor. The storage itself and `partialize` are not modelled.
- `savePemToCache` and `setPrivateKey` only log a message and are not modelled.
- `onChoosePrivateKey` only logs a message and is not modelled.
- The category modal's callbacks are no-ops, and `newCategory` is never read in the index; neither is modelled.
- The write store's `cover` and `images` are not modelled in the publish request.
- Rendering, animation, `useSize`, markdown rendering and the upload dialogs' own logic are not modelled.
- ProjectCard.ProjectCardState.ReceiveProp: a `url` change under React's keyed list is modelled as the fresh mount it causes on the same object; the unmount of the old card is not modelled separately.
- AstroPage.ErrorText: a failed token exchange forwards the upstream error's message (src/lib/auth.ts:56) and uses "GitHub 认证流程失败" only when that message is empty; the model always uses the fixed text. A failed remote call's message is "未知错误" in the model, where the source shows the call's own message.
- AstroPage.AstroPageState.HandleSave: the failure toast is stated as an error toast, without its text or which call failed.
- BlogPage.GroupedSpec: the source groups into a plain object literal, so in category mode a category named after an `Object.prototype` member (`constructor`, `toString`, `valueOf`, `hasOwnProperty`, `isPrototypeOf`, `propertyIsEnumerable`, `toLocaleString`, `__proto__`, `__defineGetter__`, `__defineSetter__`, `__lookupGetter__`, `__lookupSetter__`) finds an inherited value at page.tsx:90-93 and `acc[key].items.push` throws a TypeError. The model groups such a key like any other.
- PushPictures.UnbackedDuplicateUrl: the wall's URL for duplicate content under a second extension is modelled as written, with no blob behind it; the model does not correct it.
- PushPictures.Push: a failed remote call is reported as `RemoteFailed`, without which call failed or its message.
- ProjectsPage.ProjectsPageState.HandleSaveProject: no handler ever sets `editingProject`, so in practice the dialog save always appends. The model keeps the field and both branches.
- SharePage.SharePageState.HandleSaveShare: likewise `editingShare` is never set, so the dialog save always appends.
- The blog list comparison `JSON.stringify(a) !== JSON.stringify(b)` is modelled as sequence inequality of the trimmed, non-empty category lists.
