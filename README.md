# Link ordering in link-tree, modelled in Dafny

In link-tree, a user's profile holds sections, and each section holds links. A link's place in its section is an integer `index` column. This project models how that column is kept in order, in three parts:

- **`LinkModel` and `LinkRouter`** (`apps/app/src/server/api/routers/link.ts`)
  - The server's link mutations `add`, `delete`, `edit`, `reorder`, `addThumbnail` and `removeThumbnail`.
  - They act on a `LinkTable` object whose `links` map from link id to record is updated one row at a time.
  - `LinkModel` holds the value-level vocabulary: what a section is, when its indices are contiguous (0..n-1), what `findMany` returns, and what a renumbering writes. It also holds the lemmas about them.
  - `LinkRouter` holds the class and its methods, with their loops and invariants.
- **`DragReorder`** (`src/components/app/links/Sections/index.tsx`)
  - `handleDragEnd` on the client.
  - The cached list of sections is rearranged in place by a remove-splice and an insert-splice, and its ids are submitted as the new order.
- **`FormFields`** (`apps/app/src/pages/form.tsx`)
  - The constant table of the five optional contact-form fields.
  - The `enabledFields` filter.
  - The header and body columns of the submissions table.
  - The `formSchema` settings object.

`Wrappers` holds the `Option` and `Result` types.

Calls into code that is not part of this model are stated as contracts:

- **`LinkService.findPrevious`** is taken to return a link of the section with the highest index. `LinkRouter.FindPrevious` implements that with a loop.
- **`LinkService.findMany`** is taken to return the section's links by ascending index. `LinkRouter.FindMany` implements that by insertion.
- **`authorizeAuthor(owner, actor)`** is taken to refuse exactly when the owner differs from the acting user. The model writes that refusal as `Err(Forbidden)`.
- **The database's fresh ids** come from the counter `nextId`.
- **Each Cloudinary `uploader.destroy(publicId)` call** is recorded as an entry of `destroyRequests`.

## Model

| member | source | states |
|---|---|---|
| LinkRouter.LinkTable.Add | apps/app/src/server/api/routers/link.ts:27-58 | Creates exactly one row under a fresh id and changes no existing row. The row is owned by the acting user, in the given section, with the given text and url, not hidden and without a thumbnail. Its index is 0 in an empty section, otherwise one more than the highest index there. |
| LinkRouter.FindPrevious | apps/app/src/server/api/routers/link.ts:30 | Returns none exactly when the section has no link; otherwise returns a link of the section whose index is the highest there. |
| LinkModel.AppendIndexIsSize | apps/app/src/server/api/routers/link.ts:30-56 | In a contiguous section of n links, the index `add` chooses is n. |
| LinkModel.AppendKeepsContiguous | apps/app/src/server/api/routers/link.ts:30-56 | Appending to a contiguous section adds exactly the new id to it, gives the new link index n and leaves the section contiguous. |
| LinkModel.ContiguousIndicesAreRange | apps/app/src/server/api/routers/link.ts:83-90 | The indices of a contiguous section of n links are exactly the set {0, ..., n-1}. |
| LinkRouter.LinkTable.Delete | apps/app/src/server/api/routers/link.ts:61-93 | An unknown id gives NOT_FOUND and a foreign link gives Forbidden; in both cases the table is unchanged. Otherwise it returns the deleted row and removes it. It then sets each remaining link of its section to its position in the ascending-index list of that section. |
| LinkRouter.FindMany | apps/app/src/server/api/routers/link.ts:84 | Returns every link of the section exactly once, with no other id, in non-decreasing index order. |
| LinkModel.DeleteShiftsLaterLinks | apps/app/src/server/api/routers/link.ts:78-90 | In a contiguous section, after a delete, every link that was after the deleted one moves down by one and every link before it keeps its index. |
| LinkModel.DeleteKeepsContiguous | apps/app/src/server/api/routers/link.ts:78-90 | After a delete, the section has lost exactly the deleted id, is contiguous again, and no row changes owner or section. |
| LinkModel.ListingMakesContiguous | apps/app/src/server/api/routers/link.ts:84-90 | Numbering a section by any list that names each of its links once makes its indices 0..n-1 without repeats. |
| LinkModel.SectionOrderKeepsRelativeOrder | apps/app/src/server/api/routers/link.ts:84-90 | Renumbering by the ascending-index list keeps the relative order: a link below another stays below it. |
| LinkModel.ListingLeavesOtherSections | apps/app/src/server/api/routers/link.ts:84-90 | Renumbering one section leaves every row of every other section exactly as it was. |
| LinkModel.PositionedKeepsFields | apps/app/src/server/api/routers/link.ts:88 | A renumbering writes only `index`; every other column of every row stays. |
| LinkRouter.LinkTable.Edit | apps/app/src/server/api/routers/link.ts:95-121 | NOT_FOUND and Forbidden leave the table unchanged. Otherwise only the edited row changes, to the submitted fields over the stored ones. |
| LinkModel.ApplyEdit | apps/app/src/server/api/routers/link.ts:114-118 | A submitted text, url or hidden flag replaces the stored one; an absent one is kept. Index, owner, section and thumbnail never change. An empty edit changes nothing. |
| LinkRouter.LinkTable.Reorder | apps/app/src/server/api/routers/link.ts:129-149 | Ids are handled left to right up to the first missing or foreign one. That id's error is returned: NOT_FOUND when it is missing, Forbidden otherwise. The ids before it have had their index set, and nothing else changed. |
| LinkModel.IndexOf | apps/app/src/server/api/routers/link.ts:144 | `newOrder.indexOf(id)`: a position that holds the id, with no earlier position holding it. |
| LinkModel.FirstRejected | apps/app/src/server/api/routers/link.ts:132-140 | The first position whose id is missing or owned by someone else; every earlier id exists and is owned by the actor. |
| LinkModel.FirstRejectedIs | apps/app/src/server/api/routers/link.ts:132-140 | Those two properties determine the first rejected position uniquely. |
| LinkModel.PositionedStep | apps/app/src/server/api/routers/link.ts:142-145 | Handling one more id of the list is one single-row update of that id's index. |
| LinkModel.Positioned | apps/app/src/server/api/routers/link.ts:85-90 | What the renumbering loops write (also link.ts:142-145): after the first n ids of the list, each of them holds its first position in the list as its index. No key is added or removed. What each row then holds is proved in PositionedAt and PositionedKeepsFields. |
| LinkModel.PositionedAt | apps/app/src/server/api/routers/link.ts:144 | A listed id ends at the first position where it occurs in the list; an unlisted one keeps its whole row. |
| LinkModel.ReorderCurrentOrderIsNoop | apps/app/src/server/api/routers/link.ts:132-146 | Submitting the current order of a contiguous section that the actor owns is accepted and changes nothing. |
| LinkModel.ReorderPermutationIsContiguous | apps/app/src/server/api/routers/link.ts:132-146 | A submitted permutation of an owned section is accepted. Each link gets its position in the list, and the section is contiguous. |
| LinkModel.CurrentOrderIsFixed | apps/app/src/server/api/routers/link.ts:142-145 | Positioning by a list in which every id already sits at its own index leaves the table unchanged. |
| LinkRouter.LinkTable.AddThumbnail | apps/app/src/server/api/routers/link.ts:151-181 | NOT_FOUND and Forbidden change nothing. Otherwise: destruction of the old asset is requested when the old row has both a thumbnail and a public id; the row gets the corrected update `WithThumbnail` (see Findings), so a url-only thumbnail clears the public id; no other row changes. |
| LinkRouter.LinkTable.RemoveThumbnail | apps/app/src/server/api/routers/link.ts:183-209 | NOT_FOUND and Forbidden change nothing. Otherwise: destruction of the old asset is requested under the same condition; both thumbnail columns become null; no other row changes. |
| LinkModel.DestroyRequest | apps/app/src/server/api/routers/link.ts:170-172 | A deletion is requested exactly when thumbnail and public id are both truthy (non-null and non-empty), and it names that public id. |
| LinkModel.WithThumbnailAsWritten | apps/app/src/server/api/routers/link.ts:174-178 | The update as written: thumbnail becomes the url, a given public id is stored, and an absent public id leaves the old one. Nothing else changes. |
| LinkModel.StalePublicIdIsDestroyedTwice | apps/app/src/server/api/routers/link.ts:170-178 | An uploaded thumbnail replaced by a url-only one keeps its public id, so its deletion is requested again on the next change. |
| LinkModel.WithThumbnail | apps/app/src/server/api/routers/link.ts:174-178 | The intended update: the row holds exactly this request's thumbnail and public id; nothing else changes. |
| LinkModel.WithThumbnailDestroysOnlyItsOwnUpload | apps/app/src/server/api/routers/link.ts:170-178 | After the intended update, a later change can request deletion only of the asset uploaded with this request, and of none for a url-only thumbnail. |
| LinkModel.WithoutThumbnail | apps/app/src/server/api/routers/link.ts:203-206 | Both thumbnail columns become null, nothing else changes, and no further deletion can be requested for the row. |
| LinkRouter.AddStep | apps/app/src/server/api/routers/link.ts:30-56 | In any table, one `add` to a contiguous section extends it by the new id, owned by the acting user, at index n. The section stays contiguous and no other row changes. |
| LinkRouter.AddThreeLinks | apps/app/src/server/api/routers/link.ts:27-58 | Adding a, b, c to an empty section gives them indices 0, 1, 2. |
| LinkRouter.DeleteMiddle | apps/app/src/server/api/routers/link.ts:61-93 | Deleting b from {a: 0, b: 1, c: 2} leaves {a: 0, c: 1}, contiguous. |
| LinkRouter.AppendToTwo | apps/app/src/server/api/routers/link.ts:27-58 | Adding d to {a: 0, c: 1} gives d index 2. |
| LinkRouter.EndToEndScenario | apps/app/src/server/api/routers/link.ts:123-149 | After the run above, submitting c, d, a gives c 0, d 1, a 2. |
| DragReorder.SectionsView.HandleDragEnd | src/components/app/links/Sections/index.tsx:21-38 | With no destination, a drop on its own source spot, or no group with the dragged id, the list is unchanged and nothing is submitted. Otherwise the list is spliced at the source, the found group is spliced in at the destination, and the resulting ids are submitted. |
| DragReorder.FindIndex | src/components/app/links/Sections/index.tsx:28 | The first offset holding the id, or the list's length when none does. |
| DragReorder.Find | src/components/app/links/Sections/index.tsx:28 | None exactly when no group has the id; otherwise a group of the list with that id. |
| DragReorder.SpliceRemove | src/components/app/links/Sections/index.tsx:30 | Within bounds, the element at the offset goes and later ones move up by one; past the end, nothing changes. |
| DragReorder.SpliceInsert | src/components/app/links/Sections/index.tsx:31 | The item lands at the offset, or at the end when the offset is past it, and every other element keeps its order. |
| DragReorder.Move | src/components/app/links/Sections/index.tsx:30-31 | The two splices in a row: remove at the source offset, then insert the item at the destination. Its properties are proved in MoveIsPermutation, MoveLandsAtDestination and MoveBackRestores. |
| DragReorder.IsIgnored | src/components/app/links/Sections/index.tsx:24-25 | The drops the handler returns on: no destination, or the same droppable and the same offset. HandleDragEnd's contract shows that these drops change nothing. |
| DragReorder.MoveIsPermutation | src/components/app/links/Sections/index.tsx:30-31 | Moving the element at the source offset keeps the length and the multiset of elements. |
| DragReorder.IdsOfMove | src/components/app/links/Sections/index.tsx:30-34 | The ids of the moved list are the moved list of ids. |
| DragReorder.MoveKeepsIds | src/components/app/links/Sections/index.tsx:30-34 | The submitted ids are a permutation of the ids before the drop, when the source offset holds the dragged group. |
| DragReorder.MoveLandsAtDestination | src/components/app/links/Sections/index.tsx:30-31 | Within bounds, the moved item ends at the destination offset. Taking it out again gives the list without it at its source, so every other item keeps its relative order. |
| DragReorder.MoveBackRestores | src/components/app/links/Sections/index.tsx:30-31 | Dragging the item back from the destination to the source restores the original list. |
| DragReorder.FindIsAtSource | src/components/app/links/Sections/index.tsx:28 | With unique ids, the group found by id is the one at the source offset. |
| DragReorder.DropSubmitsPermutation | src/components/app/links/Sections/index.tsx:23-34 | For a consistent drop that is not ignored, the submitted ids are a permutation of the previous ones. The dragged group lands at the destination when that is within bounds. |
| FormFields.FieldsOrderAndNames | apps/app/src/pages/form.tsx:42-83 | Exactly five entries, with raw names name, email, subject, phone and message in that order, and pairwise distinct names. |
| FormFields.Fields | apps/app/src/pages/form.tsx:42-83 | The `fields` table of five entries. Its order and distinct names are proved in FieldsOrderAndNames, and its naming rule in FieldsNamedConsistently. |
| FormFields.FieldsNamedConsistently | apps/app/src/pages/form.tsx:43-82 | Each entry's name, labelName and requiredName are its rawName followed by Field, FieldLabel and FieldRequired. |
| FormFields.EnabledAmong | apps/app/src/pages/form.tsx:216 | A field is kept exactly when it is in the list and its flag is set, and the kept fields are an order-preserving subsequence. |
| FormFields.EnabledFields | apps/app/src/pages/form.tsx:215-217 | `enabledFields`: the filter applied to the `fields` table. What it keeps is proved in EnabledFieldsExactly. |
| FormFields.EnabledFieldsExactly | apps/app/src/pages/form.tsx:215-217 | A field is enabled exactly when the form's flag under its name is true; the enabled fields keep the table's order; there are at most five. |
| FormFields.EnabledAmongExtremes | apps/app/src/pages/form.tsx:215-217 | With every flag set, all fields are kept; with none set, none are. |
| FormFields.HeaderRow | apps/app/src/pages/form.tsx:226-229 | One column per enabled field, then a final "Time" column. |
| FormFields.BodyRow | apps/app/src/pages/form.tsx:180-187 | One cell per enabled field, then a final cell with the time the submission was sent. |
| FormFields.ColumnsLineUp | apps/app/src/pages/form.tsx:180-187 | Column i of a row holds the submission's value for the field whose raw label heads column i. |
| FormFields.ValueOf | apps/app/src/pages/form.tsx:183 | `submission[field.rawName]`: the submission column that a raw name selects, and none for any other name. ColumnsLineUp places it under its header. |
| FormFields.SubmissionsView | apps/app/src/pages/form.tsx:220-243 | The empty message is shown exactly when there is no submission. |
| FormFields.TableIsRectangular | apps/app/src/pages/form.tsx:220-243 | There is one row per submission. Each row has as many cells as the header has columns, with the enabled fields' values in header order and the time last. |
| FormFields.ParseSettings | apps/app/src/pages/form.tsx:249-268 | Accepts exactly when every schema key that is present holds a value of its kind. It then keeps those keys and drops every other key. Otherwise it refuses and names exactly the offending keys. |
| FormFields.SchemaKinds | apps/app/src/pages/form.tsx:249-268 | The 18 keys of `formSchema`, each with the kind it accepts. ParseSettings, EveryKeyOptional and FieldKeysInSchema state how it is used. |
| FormFields.EveryKeyOptional | apps/app/src/pages/form.tsx:249-268 | The empty settings object is valid, and removing any key from a valid object leaves it valid. |
| FormFields.ParseSettingsIdempotent | apps/app/src/pages/form.tsx:249-268 | Parsing what the schema accepted gives the same result again. |
| FormFields.FieldKeysInSchema | apps/app/src/pages/form.tsx:316-338 | Every field's toggle and required keys take a boolean in the schema, and its label key takes a string. |

## Left out

- Prisma, tRPC, sessions and `requireAuth`: database and network I/O. The table is an in-memory map, and the acting user is a parameter of every method.
- `LinkService.findPrevious`, `LinkService.findMany` and `authorizeAuthor` are not part of this model. Their assumed behaviour is stated above and implemented in `FindPrevious`, `FindMany` and `Authorized`.
- The renumbering inside `delete` issues its updates without awaiting them. That concurrency is not modelled: the updates are applied one after the other, in list order.
- `add` does not check that the section exists or belongs to the acting user, unlike the other five mutations (link.ts:76, 112, 140, 167, 197). The model follows the code.
- `add`'s new links are not hidden. This relies on the database default for `hidden`, which the model writes as `false`.
- `editLinkSchema` is not part of this model; an edit is modelled as an optional text, url and hidden flag.
- The URL validation of the zod schemas, the Cloudinary upload and `uploader.destroy`: foreign calls. A destroy is recorded as an event only.
- Errors thrown after a partial `reorder` leave the earlier updates in place; there is no transaction, and the model keeps that.
- LinkRouter.LinkTable.AddThumbnail: stores the corrected update `WithThumbnail`, so a url-only thumbnail sets the public id to null. As written, link.ts:176 leaves the stored public id in place, and a later thumbnail change destroys that asset a second time. `WithThumbnailAsWritten` and `StalePublicIdIsDestroyedTwice` model that behaviour (see Findings).
- DragReorder.SectionsView.HandleDragEnd: the submission is returned rather than sent. The cache invalidation, preview reload and toast that follow are UI. The list stays spliced even when the request fails, and the model keeps that.
- DragReorder.DropSubmitsPermutation: holds under the drag-and-drop library's promise that the source offset holds the dragged group. The handler itself does not check this.
- Cross-section moves (a destination in another droppable) are treated like any other drop, as in the code. The section-level server `reorder` endpoint is not part of this model.
- Negative splice offsets cannot occur: the library's offsets are natural numbers.
- `formatDate` is left out, and a submission's time is an integer. Ordering submissions by `sentAt` is done by the database query.
- All rendering: Chakra/React components, drawers, toasts and the settings modal's `register` wiring beyond the key names.
- FormFields.ParseSettings: a value is a boolean, a string, an integer or null. Zod's other value kinds and its error messages are not modelled.

## Findings

| source | as written | input that shows it | evidently intended | confidence | as-written member | corrected member |
|---|---|---|---|---|---|---|
| apps/app/src/server/api/routers/link.ts:174-178 | `addThumbnail` stores `thumbnailPublicId: publicId`. A thumbnail given by url sends no public id (`AddThumbnail.tsx:76`), and the database client skips an undefined field, so the old public id stays on the row. | A link with thumbnail `https://cdn.example/p1.png` and public id `p1` gets the url-only thumbnail `https://img.example/a.png`. `p1` is destroyed, yet stays on the row, and is destroyed again on the next thumbnail change. | A url-only thumbnail clears the stored public id, so only the asset uploaded with a thumbnail is ever destroyed, and only once. | not executed | LinkModel.StalePublicIdIsDestroyedTwice | LinkModel.WithThumbnailDestroysOnlyItsOwnUpload |
