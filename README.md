# Ordered album membership, entry reordering and the album picker

This project is a Dafny model of the ordered-membership logic of a journal
application with a photo gallery. The logic lives in three places.

- **The gallery library** (`src/lib/gallery.ts`) handles albums, the
  `album_photos` membership table and standalone photo uploads. The four
  storage tables (`albums`, `album_photos`, `blocks`, `entries`) are fields of
  the class `Gallery.Store`, each a sequence of rows. Every exported
  operation except `getAllPhotos` is either a method on the store or a
  function that reads it.
  Each storage request that can fail is a boolean input, and the model
  follows the code's branch for a failed request. An operation that makes
  several requests takes a faults record with one boolean per request
  (`getAlbums`, `getAlbumWithPhotos`, `addPhotoToAlbums`,
  `uploadPhotoToGallery`). An operation that makes a single request takes a
  single `failed` flag (`createAlbum`, `updateAlbum`, `deleteAlbum`,
  `removePhotoFromAlbum`; the photo query of the dialog's `loadData`).
  - Appending to an album writes at "largest position + 1, or 0"
    (`Ordering.NextPosition`).
  - An upsert keyed on `(album_id, block_id)` replaces an existing row and
    gives it a new position.
  - The read side counts membership rows, looks up covers, and joins an
    album's rows with their blocks and entries in position order.
  - An upload finds the `'__gallery__'` entry or creates it, then appends an
    image block at the entry's next position.
- **The entry list's drag-and-drop handler** (`handleDragEnd` in
  `src/components/MainPage.tsx`) is modelled as a pure function
  (`EntryReorder`). It moves the dragged entry with `arrayMove` splice
  semantics and renumbers the whole list to positions 0 .. n-1.
- **The "add to album" dialog** (`src/components/gallery/AlbumPicker.tsx`) is
  the class `AlbumPicker.Picker`. It holds:
  - the album list;
  - the albums the photo is already in (`existing`, a set);
  - the ticked albums (`selected`, a sequence without duplicates, because a
    JavaScript `Set` iterates in insertion order);
  - the new-album name field.

  The pure parts of the dialog are functions with their own lemmas: trimming
  the name, toggling a selection, the "new albums to add" difference and
  `hasChanges`.

Shared modelling choices:

- Identifiers are strings and timestamps are opaque strings.
- A query's `ORDER BY` is an insertion sort (`Ordering.SortBy`). Rows with
  equal keys come out in the order that sort gives them.
- The `albums` table is kept newest first, so the list query's `created_at`
  descending order is the table order. `createAlbum` prepends.

Three behaviours of the code that a reader might expect to be otherwise:

- Re-adding is replace, not skip. The upsert in `addPhotoToAlbums` has a
  conflict target but no "ignore duplicates". A pair that is already present
  is therefore replaced and moved to the album's end, and its old position is
  not kept (`Gallery.ReAddMovesToEnd`). A batch naming the same album twice
  is a storage failure.
- There is no album parameter on upload. `uploadPhotoToGallery` takes only
  the file and makes no follow-on add to an album.
- The sentinel lookup asks for at most one row. An error, no match or
  several matches all leave the upload without a sentinel, and it then
  creates another `'__gallery__'` entry. Once two exist, every upload adds
  one more (`Gallery.DuplicateSentinelsMultiply`).

## Model

| member | source | states |
|---|---|---|
| Ordering.NextPosition | src/lib/gallery.ts:262-266 | the append position is 0 for an empty scope, otherwise one more than a position that occurs, and it is larger than every existing position |
| Ordering.NextPositionOfSameElements | src/lib/gallery.ts:249-253 | the append position depends only on which positions occur, not on row order or repetition |
| Ordering.SortBy | src/lib/gallery.ts:253 | the ORDER BY of a query: its result is sorted by the key and holds the same rows, each as many times |
| Ordering.Filter | src/components/gallery/AlbumPicker.tsx:77 | an element is in the result exactly when it is in the input and satisfies the predicate, and the result is no longer than the input; multiplicity is stated by FilterCount, and distribution over concatenation by FilterConcat |
| Ordering.FilterCount | src/components/gallery/AlbumPicker.tsx:77 | each passing element is kept as many times as it occurs and every other element is dropped |
| Ordering.NoDupPermutation | src/lib/gallery.ts:140-141 | the ordered query's rearrangement of a list without duplicates has no duplicates either |
| Ordering.FilterNoDup | src/components/gallery/AlbumPicker.tsx:54 | filtering a duplicate-free list (deleting from a set) gives a duplicate-free list |
| Ordering.FilterConcat | src/components/gallery/AlbumPicker.tsx:54-56 | filtering distributes over concatenation, so deleting an element that was just added restores the set |
| Gallery.AlbumPositions | src/lib/gallery.ts:249-253 | a position is listed exactly when some row of that album has it |
| Gallery.TopIsNext | src/lib/gallery.ts:255-265 | when p is the largest position in the album, the album's append position is p + 1 |
| Gallery.DropPairs | src/lib/gallery.ts:282-286 | keeps exactly the rows that do not match both the photo and one of the albums, and keeps pairs unique |
| Gallery.Batch | src/lib/gallery.ts:262-266 | the rows the upsert writes, one per target album, at the album's append position or 0 after a failed position query; its meaning is proved in AddRowsSpec and Store.AddPhotoToAlbums |
| Gallery.AddRows | src/lib/gallery.ts:268-270 | the table after a successful upsert: the old rows for the written pairs replaced by the batch; its meaning is proved in AddRowsSpec, AddKeepsPairs, CountAfterAdd and AlbumsAfterAdd |
| Gallery.AddRowsSpec | src/lib/gallery.ts:262-270 | after a successful upsert, pairs stay unique and each target album holds the photo exactly at its computed append position (0 when the position query failed); every other row is present after exactly when it was present before |
| Gallery.AddRowsUnique | src/lib/gallery.ts:262-270 | the upsert on the (album, photo) conflict key never leaves two rows for one pair when the target albums are distinct |
| Gallery.ReAddMovesToEnd | src/lib/gallery.ts:268-270 | re-adding a photo already in an album removes its old row and puts it at a strictly larger position: replace, not skip |
| Gallery.RemoveBelowTopKeepsNext | src/lib/gallery.ts:281-286 | removing a photo other than the album's top row leaves the album's append position unchanged; the gap is not reused |
| Gallery.AddToAlbumTop | src/lib/gallery.ts:262-270 | adding a photo that is not yet in an album appends exactly one row, right after the album's top position |
| Gallery.AddKeepsPairs | src/lib/gallery.ts:268-270 | an add never removes a pair from the table |
| Gallery.CountOf | src/lib/gallery.ts:79-82 | the number of membership rows of an album, the photoCount the list reports; CountByAlbum computes it and CountIsDistinctPhotos proves it is the number of distinct photos |
| Gallery.CountIsDistinctPhotos | src/lib/gallery.ts:79-82 | with unique pairs, an album's row count (its photoCount) is the number of distinct photos in it |
| Gallery.PhotosAfterAdd | src/lib/gallery.ts:262-270 | after an add, each target album's photo set gains the photo and every other album's photo set is unchanged |
| Gallery.CountAfterAdd | src/lib/gallery.ts:262-270 | after an add, photoCount grows by one in each target album that lacked the photo and is unchanged everywhere else |
| Gallery.AlbumsAfterAdd | src/lib/gallery.ts:262-270 | after an add, the photo's album set is the old set plus the targets; every other photo's album set is unchanged |
| Gallery.RemoveSpec | src/lib/gallery.ts:281-294 | a removal deletes exactly the pair: the pair is gone, every other row stays, and the photo's albums and the album's photos each lose that element, if it was there |
| Gallery.CountAfterRemove | src/lib/gallery.ts:281-286 | after a removal, photoCount drops by one exactly when the pair was present |
| Gallery.RemoveAbsentIsNoop | src/lib/gallery.ts:281-294 | removing an absent pair leaves the table unchanged |
| Gallery.AlbumIdsOf | src/lib/gallery.ts:297-308 | lists exactly the albums having a row for the photo, each once when pairs are unique |
| Gallery.ContentOf | src/lib/gallery.ts:96-98 | the cover map misses an id exactly when no fetched block has it; otherwise it holds the content of a block with that id |
| Gallery.BlocksWithIds | src/lib/gallery.ts:90-94 | the cover query returns only blocks whose id was requested |
| Gallery.ContentOfQuery | src/lib/gallery.ts:90-98 | for a requested id, looking it up among the fetched covers gives the same result as looking it up in the whole table |
| Gallery.CoverIds | src/lib/gallery.ts:85-87 | every album with a truthy cover id contributes that id to the cover query |
| Gallery.CoverUrl | src/lib/gallery.ts:106 | the cover URL of an album view: absent without a truthy cover id or after a failed cover query, otherwise the content of the block with that id, if any (ContentOf, ContentOfQuery) |
| Gallery.AlbumView | src/lib/gallery.ts:101-110 | an album row shaped into its view, with the empty description and cover id read as absent; Store.GetAlbums states the views it builds |
| Gallery.NonEmpty | src/lib/gallery.ts:104-105 | a string read for truthiness with undefined as the fallback: an absent or empty string is absent |
| Gallery.OrDefault | src/lib/gallery.ts:151 | a string read for truthiness with a default: an absent or empty string gives the fallback (`'image'`, `'Untitled'`) |
| Gallery.CountByAlbum | src/lib/gallery.ts:79-82 | the count map has an album exactly when the album has rows, and holds its number of rows |
| Gallery.CoverContents | src/lib/gallery.ts:96-98 | the cover map has exactly the fetched block ids, each mapped to the content of the last block with that id |
| Gallery.TopsAreMax | src/lib/gallery.ts:255-260 | on rows sorted by descending position, the first position seen for each album is one less than its append position, and the albums seen are exactly those with rows |
| Gallery.TopsStep | src/lib/gallery.ts:256-259 | one loop step: a row at or below every earlier position keeps its album's entry meaningful, setting it only for an album not seen before |
| Gallery.TopStaysTop | src/lib/gallery.ts:256-259 | a row no higher than any earlier one leaves its album's append position unchanged, or starts it at its own position + 1 |
| Gallery.MaxPositions | src/lib/gallery.ts:255-260 | the loop's map holds exactly the albums with rows, each at append position - 1 |
| Gallery.QueriedPositions | src/lib/gallery.ts:249-253 | restricting the position query to the batch's albums and sorting it gives every batch album the same append position as the whole table |
| Gallery.FindAlbum | src/lib/gallery.ts:115-119 | finds a row with the id, exactly when one exists |
| Gallery.FindBlock | src/lib/gallery.ts:159-163 | finds a block with the id, exactly when one exists |
| Gallery.FindEntry | src/lib/gallery.ts:137 | finds an entry with the id, exactly when one exists |
| Gallery.PhotoOf | src/lib/gallery.ts:148-155 | a joined block and entry title shaped into a photo view, with the name defaulting to `'image'` and the title to `'Untitled'` |
| Gallery.Resolve | src/lib/gallery.ts:131-138 | the inner join of a membership row with blocks and entries yields a photo carrying that block's id |
| Gallery.Join | src/lib/gallery.ts:126-141 | every joined row comes from the input with its resolved photo, and every input row whose block and entry resolve is joined |
| Gallery.JoinKeepsOrder | src/lib/gallery.ts:140-141 | joining rows sorted by position keeps them sorted by position |
| Gallery.AlbumQueryRows | src/lib/gallery.ts:126-141 | the album's photo query returns exactly the album's membership rows |
| Gallery.JoinedPhotos | src/lib/gallery.ts:126-155 | the album's photo list (`AlbumPhotoList`: sorted rows, inner join, photo mapping) is exactly the resolvable photos of its rows, in ascending position order, each photo once |
| Gallery.AlbumQueryNoDup | src/lib/gallery.ts:126-141 | with unique pairs, the album's photo query returns no row twice |
| Gallery.JoinRowsDistinct | src/lib/gallery.ts:131-138 | joining rows without duplicates pairs each photo with a different row |
| Gallery.JoinedPhotosDistinct | src/lib/gallery.ts:148-155 | no two photos of the album have the same id, so photoCount is the number of the album's resolvable rows |
| Gallery.SentinelEntry | src/lib/gallery.ts:324-328 | the entry an upload creates: titled `'__gallery__'`, with the system description and creator; FirstSentinelIsReused and GalleryTarget state its role |
| Gallery.Sentinels | src/lib/gallery.ts:315-319 | lists exactly the entries titled `'__gallery__'`, each as many times as it occurs in the table, so its length is the number of such entries |
| Gallery.FoundSentinel | src/lib/gallery.ts:315-319 | the lookup yields an entry exactly when the query succeeds and exactly one sentinel exists, and that entry is such a sentinel |
| Gallery.FirstSentinelIsReused | src/lib/gallery.ts:315-337 | once the first sentinel has been created, later lookups find it |
| Gallery.DuplicateSentinelsMultiply | src/lib/gallery.ts:315-337 | with two or more sentinels the lookup never finds one, and creating yet another only adds to their number |
| Gallery.GalleryTarget | src/lib/gallery.ts:315-337 | the upload's entry is a sentinel: the found sentinel is returned as found, and the new id is used only when the lookup finds none; the upload has no entry exactly when the lookup finds none and the insert fails or the id is taken |
| Gallery.EntryPositions | src/lib/gallery.ts:358-363 | a position is listed exactly when some block of that entry has it |
| Gallery.BlockQueryNext | src/lib/gallery.ts:358-367 | the first row by descending position, plus one (or 0 without rows), is the entry's append position |
| Gallery.Store.GetAlbumsForPhoto | src/lib/gallery.ts:297-308 | returns exactly the albums holding the photo, each once, or the empty list when the query fails |
| Gallery.Store.GetAlbums | src/lib/gallery.ts:59-111 | returns one view per album, newest first, with its membership row count (0 if the count query failed) and its cover's content (absent without a truthy cover id, a missing block or a failed cover query); the empty list if the album query fails |
| Gallery.Store.GetAlbumWithPhotos | src/lib/gallery.ts:114-178 | returns a result exactly when the album exists and neither main query fails; photoCount is the number of photos; the photos are exactly the album's resolvable photos, in ascending position, each photo once |
| Gallery.Store.CreateAlbum | src/lib/gallery.ts:181-204 | prepends the new row with an empty description stored as absent, returns its view with count 0 and no cover, and fails without change on error or a taken id |
| Gallery.Store.UpdateAlbum | src/lib/gallery.ts:207-227 | rewrites only the rows with the id: the name when given, the description and cover cleared when absent or empty, and updatedAt; succeeds even when no row matches |
| Gallery.Store.DeleteAlbum | src/lib/gallery.ts:230-242 | succeeds exactly when the delete succeeds; the album table becomes the old one without the rows with the id, the others keeping their newest-first order; no other table is touched |
| Gallery.Store.AddPhotoToAlbums | src/lib/gallery.ts:245-278 | with no albums it succeeds without change; otherwise it succeeds exactly when the upsert is accepted (no fault, no album named twice, and the photo has a `blocks` row for the foreign key), leaving the table as AddRows describes, and leaves the table unchanged on failure |
| Gallery.Store.RemovePhotoFromAlbum | src/lib/gallery.ts:281-294 | succeeds exactly when the delete succeeds, leaving only the rows that do not match both ids |
| Gallery.Store.GalleryEntry | src/lib/gallery.ts:315-337 | yields the upload's entry as GalleryTarget, and adds a sentinel entry only when none was found and creating it succeeded |
| Gallery.Store.NextBlockPosition | src/lib/gallery.ts:357-367 | the new block's position is the entry's append position, or 0 when the query fails |
| Gallery.Store.InsertBlock | src/lib/gallery.ts:369-379 | appends the block and keeps every table's keys unique |
| Gallery.Store.UploadPhotoToGallery | src/lib/gallery.ts:312-394 | returns a photo exactly when an entry is found or created and neither the upload nor the insert fails; that photo's block is appended at the entry's append position; a sentinel created before a later failure stays |
| EntryReorder.Remove | src/components/MainPage.tsx:67 | the list without index i: one shorter, elements after i shifted down |
| EntryReorder.Insert | src/components/MainPage.tsx:67 | the list with x spliced in at index i: one longer, x at i, elements from i shifted up |
| EntryReorder.ArrayMove | src/components/MainPage.tsx:67 | the moved list has the same length, with the element from `from` at `to` |
| EntryReorder.ArrayMoveIndices | src/components/MainPage.tsx:67 | each index of the moved list holds the element from its shifted source index |
| EntryReorder.ArrayMovePermutes | src/components/MainPage.tsx:67 | the moved list is a permutation of the original |
| EntryReorder.ArrayMoveKeepsOthersInOrder | src/components/MainPage.tsx:67 | without the moved element, the other elements keep their relative order |
| EntryReorder.ArrayMoveInPlace | src/components/MainPage.tsx:67 | moving an element to its own index changes nothing |
| EntryReorder.ArrayMoveUndo | src/components/MainPage.tsx:67 | moving back from `to` to `from` restores the list |
| EntryReorder.Renumber | src/components/MainPage.tsx:71-74 | the batch has one update per entry, in list order, giving each entry its index |
| EntryReorder.RenumberIsDense | src/components/MainPage.tsx:71-75 | the positions written are exactly 0 .. n-1, each once, and every entry receives an update |
| EntryReorder.IndexOf | src/components/MainPage.tsx:64-65 | the first index holding the id |
| EntryReorder.HandleDragEnd | src/components/MainPage.tsx:60-77 | without a target, or dropped on itself, nothing changes and nothing is persisted; otherwise the dragged entry lands at the target's index, the list is a permutation with the others in order, and the batch renumbers the new list |
| EntryReorder.DragLastToFront | src/components/MainPage.tsx:63-75 | dragging the last of four entries onto the first puts it in front and persists positions 0 .. 3 in the new order |
| AlbumPicker.LeadingSpace | src/components/gallery/AlbumPicker.tsx:62 | counts exactly the whitespace prefix |
| AlbumPicker.TrailingSpace | src/components/gallery/AlbumPicker.tsx:62 | counts exactly the whitespace suffix |
| AlbumPicker.Trim | src/components/gallery/AlbumPicker.tsx:62 | `trim()`: the name without its leading and trailing whitespace; its meaning is proved in TrimSpec |
| AlbumPicker.TrimSpec | src/components/gallery/AlbumPicker.tsx:62 | the trimmed name is empty exactly when the name is all whitespace; a non-empty result is a slice of the name with non-whitespace ends, preceded and followed only by whitespace, which fixes it uniquely |
| AlbumPicker.TrimUnique | src/components/gallery/AlbumPicker.tsx:62 | any slice of the name with only whitespace around it and non-whitespace ends is exactly what `trim()` returns, so TrimSpec pins the result down |
| AlbumPicker.SetAdd | src/components/gallery/AlbumPicker.tsx:56 | `Set.add` on an insertion-ordered set: an absent id goes to the end, a present one changes nothing |
| AlbumPicker.SetDelete | src/components/gallery/AlbumPicker.tsx:54 | `Set.delete`: every occurrence of the id is removed, the rest keep their order |
| AlbumPicker.Toggle | src/components/gallery/AlbumPicker.tsx:52-57 | `handleToggleAlbum`'s new selection; its meaning is proved in ToggleSpec and ToggleTwice |
| AlbumPicker.ToggleSpec | src/components/gallery/AlbumPicker.tsx:51-59 | toggling flips membership of the id, keeps every other id, and keeps the selection free of duplicates |
| AlbumPicker.ToggleTwice | src/components/gallery/AlbumPicker.tsx:51-59 | toggling twice restores the selected set, and restores the sequence exactly for an id that was not ticked |
| AlbumPicker.NewAlbumsToAdd | src/components/gallery/AlbumPicker.tsx:77 | exactly the ticked albums not already holding the photo, without duplicates |
| AlbumPicker.HasChanges | src/components/gallery/AlbumPicker.tsx:93 | some ticked album does not hold the photo yet; HasChangesIffSomethingToAdd and DeselectIsNoChange state its meaning |
| AlbumPicker.HasChangesIffSomethingToAdd | src/components/gallery/AlbumPicker.tsx:93 | hasChanges holds exactly when saving has albums to add |
| AlbumPicker.DeselectIsNoChange | src/components/gallery/AlbumPicker.tsx:93 | unticking an album never creates a change |
| AlbumPicker.Picker.constructor | src/components/gallery/AlbumPicker.tsx:25-31 | the dialog starts with no albums, empty sets and an empty, closed name field |
| AlbumPicker.Picker.LoadData | src/components/gallery/AlbumPicker.tsx:39-49 | the album list is getAlbums' result, and both the existing and the selected set are the photo's albums |
| AlbumPicker.Picker.ToggleAlbum | src/components/gallery/AlbumPicker.tsx:51-59 | the selection becomes its toggle and stays duplicate-free; nothing else changes |
| AlbumPicker.Picker.CreateAlbum | src/components/gallery/AlbumPicker.tsx:61-71 | a blank name changes nothing; on success the album is prepended and ticked and the name field is cleared and closed; on failure nothing changes |
| AlbumPicker.Picker.Save | src/components/gallery/AlbumPicker.tsx:73-91 | the store is called only when there are albums to add; when the upsert is accepted the table gains exactly those rows, otherwise it is unchanged; save never removes a membership |

## Left out

- Rendering: the JSX components, dialogs, toasts, and the `isLoading` / `isSaving` flags. These carry no logic the model could check.
- The uploaded file's bytes, the storage bucket upload, `getPublicUrl` and `Date.now()`. The upload's success is a fault flag. The public URL, the file name, the new block and entry ids, and the timestamp are parameters.
- `getAllPhotos`, `deletePhoto` and the other callers of the library. `deletePhoto` is not defined in the gallery library, so its cascade is not modelled.
- Cascades on delete. `deleteAlbum` removes only the album row. Any foreign-key cascade belongs to the database schema, which is not part of this model.
- `getEntries` and `updateEntryPositions`. The reorder returns the batch it would send, and the persistence call is not modelled.
- Concurrency. Requests are modelled one after another, so `Promise.all` in `loadData`, the unguarded sentinel check-then-insert and concurrent reorders are sequential here.
- Logging with `console.error`.
- HandleDragEnd: requires both ids to be in the list, as they are for the list's sortable items. The path where `findIndex` returns -1 is not modelled.
- HandleDragEnd: the in-memory entries keep their loaded `position` field. Only the persisted batch carries the new positions, as in the code.
- SortBy: storage may order rows with equal keys arbitrarily. The model fixes one order, so which of two equal-position photos comes first is the model's choice. The contracts state only non-decreasing order.
- Store.Valid: the primary keys and the `(album_id, block_id)` uniqueness are assumed schema constraints. An insert whose id is taken is modelled as a failed insert.
- Store.Valid: foreign keys are not part of the invariant, so the model admits membership rows that point at a missing album or photo; `Join` drops such rows when an album is read. Of the foreign keys, only `album_photos.block_id → blocks.id`, which the photo embed of `getAlbumWithPhotos` needs, is modelled: `addPhotoToAlbums` fails for a photo with no `blocks` row. The `album_id → albums.id` key is not modelled, so an add naming a missing album succeeds here.
