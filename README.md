# ntdf-editor core, modelled in Dafny

ntdf-editor is a browser editor for the nested binary archives of a
PlayStation 2 game: a *gamefile* holds numbered file blobs, a blob may be a
*chunk file* (a list of typed, numbered chunks), a single chunk, an
instanced-model list, a VAG sound or another gamefile, and any of these may
be viewed through a byte *slice*. Every place the editor can open is named by
an address (`GamefilePath`). An address resolves to a value and can be
replaced: the new value is written into a copy of every ancestor up to a new
gamefile.

This project models the editor's deterministic core and proves what each
part promises:

- **Addresses** (`paths.dfy`, `path_ops.dfy`, `chunk_select.dfy`,
  `blob_caches.dfy`, `archive.dfy`). There is one datatype constructor per
  address node.
  - `Resolve` and `Replace` thread an explicit store: the three decode caches,
    the slice cache, and a counter that gives every new blob its own identity.
  - Proved properties: chunk occurrence selection, the slice window, "replace
    writes one slot only", and resolve-after-replace. Also proved: that
    `toString` of a parent is a prefix of its child's, the shape `flatten`
    returns, and the materials-source inference.
- **Byte patch lists** (`hex_replacement.dfy`).
  - `apply_replacements_to_blob` is a loop proved against a recursive
    specification, and from that against "patch each edit in place".
  - `add_replacement` is modelled as written, and in a corrected form (see
    Findings).
- **Hex editor** (`hex_editor.dfy`): the cursor reducer, the clipboard
  encoding and decoding with the copy/paste round trip, and the row-address
  width.
- **Edit transactions and tabs** (`app.dfy`):
  - the compare-and-swap commit loop with its 20 attempts and its undo stack;
  - tab de-duplication by address string;
  - tab property updates and tab closing.
- **Visibility-first task queue** (`scroll_queue.dfy`), **decode caches**
  (`blob_caches.dfy`) and **object keys** (`object_key.dfy`).
- **Helpers embedded in the UI** (`files_pane.dfy`, `image_editor.dfy`,
  `table_editor.dfy`): chunk occurrence numbering, the sector-map addresses,
  CLUT inference and the selection reducers, and CSV and dialog text
  transforms.
- **Rendering helpers** (`mesh_render.dfy`, `blend.dfy`, `gl_state.dfy`):
  - triangle-strip index generation and the index width;
  - the GS blend decision table, proved to compute the GS blend formula;
  - the enabled-vertex-attribute sync.

External codecs (chunk files, chunks, sector maps, instanced models, VAG
audio, gamefile decoding) are function values passed in a `Codecs` record, so
the model holds for every codec. Browser, WebGL and clock effects become
parameters or call logs.

## Model

| member | source | states |
|---|---|---|
| ObjectKey.KeyTable.constructor | src/object_key.ts:1-2 | the table starts with no keys and the counter at 0, which is consistent |
| ObjectKey.Keyed | src/object_key.ts:3-9 | a known object gets its stored key and nothing changes; a new object gets the counter's value, the counter goes up by one, and every earlier key is kept |
| ObjectKey.KeyedKeepsConsistent | src/object_key.ts:2-8 | every issued key stays below the counter and no two objects share a key |
| ObjectKey.KeyedTwice | src/object_key.ts:4-8 | two lookups in a row give equal keys exactly when they are for the same object |
| ObjectKey.KeyTable.Key | src/object_key.ts:3-9 | the stateful lookup returns the key and leaves the table and counter that `Keyed` describes |
| BlobCaches.Lookup | src/blob_caches.ts:8-14 | a hit returns the stored entry unchanged; a miss decodes once and stores the result; no other entry changes |
| BlobCaches.LookupTwice | src/blob_caches.ts:8-14 | a second lookup of the same blob returns the same value and leaves the cache as it was |
| BlobCaches.LookupKeyedByIdentity | src/blob_caches.ts:3-5 | filling one blob's entry leaves every other blob's entry alone, including a blob with equal bytes |
| BlobCaches.DecodeCaches.constructor | src/blob_caches.ts:4-6 | the three decode caches start empty |
| BlobCaches.DecodeCaches.ResolveChunkFile | src/blob_caches.ts:8-14 | updates the chunk-file cache as `Lookup` does; the other two caches are unchanged |
| BlobCaches.DecodeCaches.ResolveChunk | src/blob_caches.ts:16-22 | updates the chunk cache as `Lookup` does; the other two caches are unchanged |
| BlobCaches.DecodeCaches.ResolveInstancedModels | src/blob_caches.ts:24-30 | updates the instanced-models cache as `Lookup` does; the other two caches are unchanged |
| ScrollQueue.FirstVisible | src/scroll_promise_queue.ts:48-57 | the index found is visible and no earlier item is visible; none is found only when no item is visible |
| ScrollQueue.PopIndex | src/scroll_promise_queue.ts:44-60 | an index is chosen exactly when the queue is non-empty, and it lies inside the queue |
| ScrollQueue.WithoutConserves | src/scroll_promise_queue.ts:54 | removing one item keeps every other item: the remainder plus the removed item is the old multiset |
| ScrollQueue.PopPrefersVisible | src/scroll_promise_queue.ts:46-56 | with a container and more than one item, the first visible item is taken and the rest keep their order |
| ScrollQueue.PopFallsBackToHead | src/scroll_promise_queue.ts:59 | with no container, one item, or no visible item, the head of the queue is taken |
| ScrollQueue.PopRemovesOne | src/scroll_promise_queue.ts:44-60 | each pop on a non-empty queue takes one item that was queued and removes exactly that one |
| ScrollQueue.Drained | src/scroll_promise_queue.ts:32-42 | the drain stops with an empty queue or with the counter at the maximum; the counter grows by the number of items started and never passes the maximum |
| ScrollQueue.DrainedConserves | src/scroll_promise_queue.ts:32-42 | the items started plus those still queued are exactly the items queued before |
| ScrollQueue.Queue.constructor | src/scroll_promise_queue.ts:11-16 | the queue starts empty with nothing in flight and the given maximum |
| ScrollQueue.Queue.Add | src/scroll_promise_queue.ts:18-30 | starts the new task at once exactly when the counter is below the maximum, and then counts it; otherwise appends it to the queue with the counter unchanged; the counter stays within the maximum |
| ScrollQueue.Queue.PopNextItem | src/scroll_promise_queue.ts:44-60 | the scan loop leaves the item and queue that `Popped` describes |
| ScrollQueue.Queue.ItemDone | src/scroll_promise_queue.ts:32-42 | decrements the counter and starts queued items until the maximum is reached or the queue is empty, as `Drained` describes; the counter stays within the maximum |
| GlState.ContextStates.constructor | src/editors/model_viewer/state.ts:4 | no context has a list yet and no call has been made |
| GlState.ContextStates.StateFor | src/editors/model_viewer/state.ts:5-14 | a context's first use creates an empty list; later uses return the stored list unchanged |
| GlState.ContextStates.EnableMissing | src/editors/model_viewer/state.ts:18-23 | appends each requested attribute not yet listed, in request order, and logs one enable call for each |
| GlState.ContextStates.DisableUnrequested | src/editors/model_viewer/state.ts:24-31 | the splice loop keeps the requested attributes in order and logs one disable call per removed attribute |
| GlState.ContextStates.UpdateEnabledVertexAttribs | src/editors/model_viewer/state.ts:16-32 | the context's list becomes `Synced(before, attribs)` and the calls logged are `SyncCalls(before, attribs)` |
| GlState.NewAttribsFacts | src/editors/model_viewer/state.ts:18-23 | every attribute added was requested and not yet listed; every requested attribute ends up listed; no duplicates are introduced |
| GlState.KeptMembers | src/editors/model_viewer/state.ts:24-31 | an attribute survives the splice loop exactly when it was listed and requested |
| GlState.DroppedMembers | src/editors/model_viewer/state.ts:24-31 | an attribute is removed exactly when it was listed and not requested |
| GlState.SyncedMembers | src/editors/model_viewer/state.ts:16-32 | after the call, the list holds exactly the requested attributes |
| GlState.SyncedNoDuplicates | src/editors/model_viewer/state.ts:19 | a list without duplicates stays without duplicates |
| GlState.SyncedOrder | src/editors/model_viewer/state.ts:20-27 | retained attributes keep their relative order, and new ones follow in request order |
| GlState.SyncCallsSpec | src/editors/model_viewer/state.ts:19-29 | an enable call is issued only for a newly requested attribute, and a disable call only for a removed one |
| GlState.SyncTwice | src/editors/model_viewer/state.ts:16-32 | a second call with the same request changes nothing and issues no call |
| MeshRender.Triangle | src/editors/model_viewer/mesh_render.ts:35-42 | each triangle is three indices ending at start+i, with the other two being start+i-2 and start+i-1 in some order |
| MeshRender.StripCount | src/editors/model_viewer/mesh_render.ts:31-43 | a strip emits exactly three indices for every vertex from the third on whose flag is below 0x80 |
| MeshRender.StripBounds | src/editors/model_viewer/mesh_render.ts:35-43 | every index emitted for a buffer list lies in [vertex_start, vertex_start + num_vertices) |
| MeshRender.ConsistentWinding | src/editors/model_viewer/mesh_render.ts:35-42 | consecutive triangles cross their shared edge in opposite directions, so the alternation keeps one winding |
| MeshRender.WidthFits | src/editors/model_viewer/mesh_render.ts:45-49 | every vertex index below the total fits the chosen index width |
| MeshRender.AppendStrip | src/editors/model_viewer/mesh_render.ts:29-43 | the inner loop appends exactly the list's strip indices |
| MeshRender.EmitTriangle | src/editors/model_viewer/mesh_render.ts:35-42 | the three pushes append exactly one triangle |
| MeshRender.BuildMeshIndices | src/editors/model_viewer/mesh_render.ts:24-67 | the indices are the concatenated strips of all lists, lists without kick flags contributing none; the width follows the vertex total; the count is the number of indices |
| MeshRender.AllIndicesTriangles | src/editors/model_viewer/mesh_render.ts:28-44 | the index count is three times the number of emitted triangles, so it is a multiple of 3 |
| Blend.ApplyBlendEquation | src/editors/model_viewer/blend.ts:3-80 | depth testing is off exactly when it is disabled or the method is ALWAYS; blending is off exactly when A == B and D is the source colour; a blend colour is set exactly for C == Fix, with the pass's fixed alpha |
| Blend.AlphaFactors | src/editors/model_viewer/blend.ts:31-36 | the alpha factor and its one-minus twin evaluate to C's alpha and one minus it |
| Blend.BlendMatchesGs | src/editors/model_viewer/blend.ts:13-71 | whenever the table reports the pass as compatible, the configured WebGL blend computes the GS colour formula (A - B) * C + D and keeps the source alpha |
| Blend.IncompatibleExactly | src/editors/model_viewer/blend.ts:72-77 | the result is false exactly when A != B, A == D and A is not Zero |
| Blend.DepthMatchesGs | src/editors/model_viewer/blend.ts:4-11 | with depth as negated GS Z, the WebGL depth test passes exactly the fragments the GS test passes |
| AppModel.WithError | src/App.tsx:161-167 | the popup shows the error, nothing else changes, and a valid state stays valid |
| AppModel.Minted | src/App.tsx:30-33 | a tab list handed in keeps its existing tab objects and gives each new one an id from the reserved block, no two new ones sharing an id |
| AppModel.Installed | src/App.tsx:84-87 | installing a handed-in tab list makes a new array object; from a valid state whose handed-in existing tabs are known, the state stays valid |
| AppModel.Undone | src/App.tsx:191-202 | an empty undo stack changes nothing; otherwise the last stacked archive becomes live and leaves the stack, and nothing else changes (no redo entry); a valid state stays valid |
| AppModel.Committed | src/App.tsx:82-87 | the answer becomes the live archive, the old one is pushed on the undo stack, and the tab list is replaced (by a new array) only when the answer supplies one; the id counter never goes back, and a valid state stays valid when the supplied existing tabs are known |
| AppModel.Attempted | src/App.tsx:79-91 | the swap succeeds exactly when the live archive is the one read and, if tabs are supplied, so is the tab list; a failed attempt leaves the state untouched |
| AppModel.CommitThenUndo | src/App.tsx:82-202 | a committed edit followed by an undo restores the archive and the undo stack |
| AppModel.EditFrom | src/App.tsx:68-102 | every error the edit throws is shown in the error popup before it propagates |
| AppModel.EditWithoutGamefile | src/App.tsx:71-100 | with no archive loaded the edit throws before consulting the callback, and only the error popup changes |
| AppModel.EditCancelled | src/App.tsx:74-75 | a callback answering null ends the edit with no state change |
| AppModel.EditUncontended | src/App.tsx:74-95 | when nothing else happens meanwhile, the first attempt commits the answer: new archive, old one on the undo stack, tabs replaced only if supplied |
| AppModel.EditGivesUp | src/App.tsx:70-97 | when every attempt is overtaken by another commit, the edit throws after the 20th attempt |
| AppModel.EditKeepsValid | src/App.tsx:68-102 | when the callback hands back only tab objects it was given and rivals install only known tab objects, the whole edit transaction keeps every object id below the counter |
| AppModel.FindByText | src/App.tsx:131-137 | finds the first tab whose address prints as the given text, and finds none only when no tab does |
| AppModel.Opened | src/App.tsx:125-151 | an address printing like an open tab's makes that tab's address current and adds nothing; otherwise one unready, untitled tab is appended and made current; existing tabs are kept; a valid state stays valid |
| AppModel.OpenKeepsTextsDistinct | src/App.tsx:125-151 | opening never creates a second tab for an address string already open |
| AppModel.OpenTwice | src/App.tsx:125-151 | opening the same address twice is the same as opening it once |
| AppModel.FindByPath | src/App.tsx:175-176 | finds the first tab holding the very same address object, and finds none only when no tab does |
| AppModel.Relabelled | src/App.tsx:172-183 | only the first tab with the identical address object changes, taking the given title and readiness and keeping the absent ones; with no such tab nothing changes; in a valid state the new tab object equals none of the old ones, and a valid state stays valid |
| AppModel.FindTab | src/App.tsx:331-332 | finds the first occurrence of the very same tab object, and finds none only when it is not listed |
| AppModel.Closed | src/App.tsx:330-337 | removes exactly that tab, keeps the others in order, and clears the current tab when it was this tab's address; a valid state stays valid |
| AppModel.StaleCloseChangesNothing | src/App.tsx:172-337 | closing a tab object that `set_tab_properties` has replaced finds nothing and changes nothing |
| AppModel.OpenThenClose | src/App.tsx:125-337 | opening a new address and then closing the tab it made gives back the old tab list with no current tab |
| AppModel.App.constructor | src/App.tsx:51-66 | no archive, an empty undo stack, no tabs, no current tab and no error, which is a valid state |
| AppModel.App.ShowError | src/App.tsx:161-167 | the error popup shows the error and nothing else changes |
| AppModel.App.Undo | src/App.tsx:191-202 | the component's state becomes `Undone` of the old state |
| AppModel.App.TryCommit | src/App.tsx:78-92 | one `setState` updater: the success flag and new state are those of `Attempted` |
| AppModel.App.Interfere | src/App.tsx:68-102 | a concurrent event (another commit, an undo, new tabs) changes the state as `Interleaved` says |
| AppModel.App.EditGamefile | src/App.tsx:68-102 | the retry loop of at most 20 attempts ends with the result and state `EditFrom` gives |
| AppModel.App.OpenFile | src/App.tsx:125-151 | the scan loop leaves the state `Opened` gives |
| AppModel.App.SetTabProperties | src/App.tsx:172-183 | the scan loop leaves the state `Relabelled` gives |
| AppModel.App.CloseTab | src/App.tsx:330-337 | the scan loop leaves the state `Closed` gives |
| FilesPane.OccurrenceIndices | src/FilesPane.tsx:100-103 | the `index_map` loop gives each child the number of earlier siblings with the same (type, id) |
| FilesPane.CountMatchesGrows | src/FilesPane.tsx:100-102 | occurrence counts never decrease along the container |
| FilesPane.OccurrenceSelectsChild | src/FilesPane.tsx:100-104 | the chunk address built from a child's (type, id, occurrence) selects that very child |
| FilesPane.OccurrenceKeysDistinct | src/FilesPane.tsx:103 | the list keys `type,id,index` are pairwise distinct within one container |
| FilesPane.SectorMapPath | src/FilesPane.tsx:248-260 | a sector map is chosen exactly for root files 144, 145 and 576 of a 1434-file archive; it is a SectorMap chunk with id 0 in file 533's chunk file |
| FilesPane.SectorMapsDistinct | src/FilesPane.tsx:251-256 | files 144, 145 and 576 take occurrences 0, 1 and 2, so no two files share a sector map |
| FilesPane.Probe | src/FilesPane.tsx:273-290 | a sector map always gives a sub-archive; otherwise the result is a chunk file, a single chunk or a VAG name exactly when that decoder is the first to accept the contents |
| FilesPane.ProbeUndecoded | src/FilesPane.tsx:273-290 | nothing is shown exactly when there is no sector map and every decoder refuses the contents |
| FilesPane.FileAddresses | src/FilesPane.tsx:396-402 | the loop creates exactly one file address per index 0 .. num_files-1, in order, under the archive's address |
| FilesPane.FileAddressesDistinct | src/FilesPane.tsx:396-402 | the file addresses are pairwise distinct children of the archive's address |
| FilesPane.SizeMismatch | src/FilesPane.tsx:66 | the warning shows exactly when the container size is set (non-zero) and the contents are more than 2048 bytes smaller |
| FilesPane.SizeMismatchSlack | src/FilesPane.tsx:66 | contents that fill the container up to its last 2048 bytes never warn |
| ImageEditor.WhereFacts | src/editors/ImageEditor.tsx:42-45 | a filtered list holds exactly the indices of the locations the filter keeps, in increasing order |
| ImageEditor.PositionOf | src/editors/ImageEditor.tsx:183 | `indexOf` gives the first position holding the element, and -1 exactly when it is absent |
| ImageEditor.PositionOfIncreasing | src/editors/ImageEditor.tsx:183 | in a filtered list, the position of the k-th element is k |
| ImageEditor.InitialSelection | src/editors/ImageEditor.tsx:41-47 | the image selection is the sole non-CLUT location, and -1 exactly when there is not exactly one; likewise the CLUT selection for CLUT locations |
| ImageEditor.DisplayLocation | src/editors/ImageEditor.tsx:68-81 | a selected image location is shown as is; otherwise the view is a non-CLUT location 0 whose format is 4-bit exactly when the selected CLUT is 2 high and 8-bit exactly when it is 16 high |
| ImageEditor.FallbackCoversImage | src/editors/ImageEditor.tsx:73-81 | each fallback view (2w×4h at 4 bits, 2w×2h at 8 bits, w×h at 32 bits) covers exactly the image's data |
| ImageEditor.FirstClutAt | src/editors/ImageEditor.tsx:171-174 | finds the first CLUT whose location is the pass's CLUT location, and finds none only when there is no such CLUT |
| ImageEditor.PassMatchSound | src/editors/ImageEditor.tsx:169-176 | a CLUT found through the passes comes from a pass that samples the location and names that CLUT's location |
| ImageEditor.MaterialMatchSound | src/editors/ImageEditor.tsx:166-178 | a CLUT found through the materials comes from a material of this image file with such a pass |
| ImageEditor.PairedClut | src/editors/ImageEditor.tsx:180-184 | the paired CLUT, when there is one, is a CLUT 2 high |
| ImageEditor.InferredClut | src/editors/ImageEditor.tsx:158-194 | the result is the original selection, -1, or a CLUT location; no location, a missing location or a CLUT location gives the original selection back; a location of another format with no material match also keeps it |
| ImageEditor.FourBitFallback | src/editors/ImageEditor.tsx:180-185 | with no material match and unequal counts of 4-bit locations and 2-high CLUTs, a 4-bit location keeps the original selection when that is a 2-high CLUT, and gets -1 otherwise |
| ImageEditor.TrueColourClearsClut | src/editors/ImageEditor.tsx:162 | selecting a 32-bit image location clears the CLUT selection |
| ImageEditor.MaterialWins | src/editors/ImageEditor.tsx:166-178 | a material of this image file naming a CLUT for the location wins over every other rule |
| ImageEditor.FourBitPairing | src/editors/ImageEditor.tsx:180-184 | without a material match, the k-th 4-bit location gets the k-th CLUT 2 high whenever the two counts agree |
| ImageEditor.EightBitSoleClut | src/editors/ImageEditor.tsx:186-191 | without a material match, an 8-bit location gets the sole CLUT 16 high if there is one, and otherwise keeps an original CLUT 16 high or gets -1 |
| ImageEditor.InferClutLocation | src/editors/ImageEditor.tsx:158-194 | the nested search loops return exactly `InferredClut` |
| ImageEditor.SearchPasses | src/editors/ImageEditor.tsx:169-176 | the loops over one material's passes and candidate CLUTs return exactly `PassMatch` |
| ImageEditor.Cycled | src/editors/ImageEditor.tsx:207-211 | the step gives -1 exactly when the list is empty, and otherwise an element of the list |
| ImageEditor.CycledPosition | src/editors/ImageEditor.tsx:208-210 | from entry k the step lands on entry (k + adj) mod n; from no entry, on the first or the last |
| ImageEditor.CycledBack | src/editors/ImageEditor.tsx:206-213 | one step forward and one back, or back and forward, returns to the same entry |
| ImageEditor.StepImage | src/editors/ImageEditor.tsx:201-214 | arrow up or down selects an image location, or -1 exactly when there is none, and a CLUT that is kept, cleared or a CLUT location |
| ImageEditor.StepClut | src/editors/ImageEditor.tsx:215-232 | arrow left or right keeps the image and selects a CLUT, 2 high for a 4-bit image and 16 high for an 8-bit one |
| ImageEditor.Escaped | src/editors/ImageEditor.tsx:237 | Escape clears the image selection, and the CLUT is cleared exactly when the image already was (or no CLUT was selected) |
| ImageEditor.EscapeTwice | src/editors/ImageEditor.tsx:237 | two presses clear both selections, and a third changes nothing |
| TableEditor.JoinIsConcat | src/editors/TableEditor.tsx:141 | a comma-joined row is its first cell followed by each later cell behind its comma |
| TableEditor.NatTextValue | src/editors/TableEditor.tsx:135 | the decimal text of a natural number reads back as that number |
| TableEditor.NumberRoundTrip | src/editors/TableEditor.tsx:120-135 | reading the decimal text of n back with `+text`, falling back to 0, gives n for every integer n, including 0 and negatives |
| TableEditor.ExportCell | src/editors/TableEditor.tsx:134-140 | an exported cell needs quotes only when it is a string with a comma, newline or quote, and then it is wrapped in quotes |
| TableEditor.QuoteRoundTrip | src/editors/TableEditor.tsx:118-138 | doubling the quotes and then halving doubled quotes gives the string back |
| TableEditor.CellRoundTrip | src/editors/TableEditor.tsx:116-140 | importing an exported cell, with or without its leading comma, gives the cell back, except the string "[null]" which reads as null |
| TableEditor.NumCellRoundTrip | src/editors/TableEditor.tsx:120-135 | a number column's cell reads back as the same number |
| TableEditor.StrCellRoundTrip | src/editors/TableEditor.tsx:116-140 | a string column's cell reads back as the same string, quoted or not |
| TableEditor.QuotedCellRoundTrip | src/editors/TableEditor.tsx:117-138 | a string with a comma, newline or quote is exported quoted and imported unquoted |
| TableEditor.PlainCellRoundTrip | src/editors/TableEditor.tsx:121-140 | any other string is exported as itself and imported as itself |
| TableEditor.ImportRow | src/editors/TableEditor.tsx:115-123 | a row imports as one cell per matched piece |
| TableEditor.RowRoundTrip | src/editors/TableEditor.tsx:115-141 | an exported row falls into comma-led pieces that import as the same row |
| TableEditor.SavedField | src/editors/TableEditor.tsx:204-211 | a saved field suits its column: a string column yields null for "[null]" or a missing field and a string otherwise; other columns yield a number |
| TableEditor.SavedRow | src/editors/TableEditor.tsx:204-211 | the saved row has one cell per column, each suiting its column |
| TableEditor.DropNextLayout | src/editors/TableEditor.tsx:72-208 | dropping newlines undoes the `[next]` layout |
| TableEditor.DropBreakLayout | src/editors/TableEditor.tsx:72-208 | dropping newlines from the `[br]` layout leaves `[br]` where each line break was |
| TableEditor.UnmarkMarked | src/editors/TableEditor.tsx:208 | turning `[br]` back into line breaks undoes the marking, when the text had no `[br]` of its own |
| TableEditor.NullTextFixed | src/editors/TableEditor.tsx:74-208 | the text "[null]" holds no line break and no `[br]`, so saving does not change it |
| TableEditor.SaveDisplayedString | src/editors/TableEditor.tsx:70-208 | saving an unedited string field restores the original, when it has no literal `[br]` and is not "[null]" |
| TableEditor.SaveDisplayedRow | src/editors/TableEditor.tsx:70-211 | saving an unedited row restores it, under the same conditions on its strings |
| TableEditor.Deleted | src/editors/TableEditor.tsx:193-194 | delete removes exactly the row being edited, keeping the others in order |
| TableEditor.SavedAt | src/editors/TableEditor.tsx:203-204 | save overwrites the edited row and keeps the others; a row index equal to the length appends |
| TableEditor.DeletedRemovesOne | src/editors/TableEditor.tsx:193-194 | deleting takes out exactly one row, the one being edited |
| TableEditor.AddThenDelete | src/editors/TableEditor.tsx:147-204 | adding a row and then deleting it gives the entries back |
| TableEditor.SaveUneditedRow | src/editors/TableEditor.tsx:70-211 | opening a row and saving it unedited leaves the entries as they were |
| HexEditor.InvCode | src/editors/HexEditor.tsx:296-300 | the inverse cp1252 lookup only answers with a byte value below 256 that decodes to the character |
| HexEditor.CodeRoundTrip | src/editors/HexEditor.tsx:296-300 | every byte's cp1252 character maps back to that byte, so the map is one-to-one |
| HexEditor.RoundTrip80 | src/editors/HexEditor.tsx:296-300 | bytes 0x80-0x87 decode to characters that are neither ASCII nor in U+00A0-U+00FF, which the 0x80-0x8F table maps back to them |
| HexEditor.RoundTrip88 | src/editors/HexEditor.tsx:296-300 | bytes 0x88-0x8F decode to characters that are neither ASCII nor in U+00A0-U+00FF, which the 0x80-0x8F table maps back to them |
| HexEditor.RoundTrip90 | src/editors/HexEditor.tsx:296-300 | bytes 0x90-0x97 decode to characters that are neither ASCII nor in U+00A0-U+00FF, which only the 0x90-0x9F table maps back to them |
| HexEditor.RoundTrip98 | src/editors/HexEditor.tsx:296-300 | bytes 0x98-0x9F decode to characters that are neither ASCII nor in U+00A0-U+00FF, which only the 0x90-0x9F table maps back to them |
| HexEditor.InvChar | src/editors/HexEditor.tsx:296-300 | a character maps to a byte only if that byte decodes to the character |
| HexEditor.CharRoundTrip | src/editors/HexEditor.tsx:296-300 | every byte's character maps back to that byte |
| HexEditor.InvCharExact | src/editors/HexEditor.tsx:296-300 | a character maps to a byte exactly when the byte decodes to it |
| HexEditor.HexValue | src/editors/HexEditor.tsx:140 | a character has a hex value exactly when it is a digit or a letter a-f in either case, and the value is below 16 |
| HexEditor.HexDigitValue | src/editors/HexEditor.tsx:74 | the lowercase digit written for a nibble reads back as that nibble |
| HexEditor.Tabbed | src/editors/HexEditor.tsx:108-128 | Tab keeps the byte and the anchor |
| HexEditor.Moved | src/editors/HexEditor.tsx:145-183 | a NO_SELECT cursor ignores every key; any edit is a single-byte edit at the cursor with a nibble value that fits; a placed cursor stays inside the blob |
| HexEditor.Vertical | src/editors/HexEditor.tsx:150-157 | vertical movement keeps the cursor selected and inside the blob |
| HexEditor.Left | src/editors/HexEditor.tsx:158-166 | ArrowLeft keeps the cursor selected and inside the blob |
| HexEditor.Typed | src/editors/HexEditor.tsx:167-181 | typing keeps the cursor selected and inside the blob and emits only in-bounds single-byte edits at the cursor |
| HexEditor.KeyDown | src/editors/HexEditor.tsx:104-185 | keys do nothing when the blob is empty or nothing is selected; selection state is kept; edits are single-byte edits at the cursor, inside the blob when the cursor is |
| HexEditor.MovesDown | src/editors/HexEditor.tsx:150-153 | Down/PageDown add 16/256 and emit nothing; past the end the cursor goes to the last byte in LOWER, or stays in CHAR |
| HexEditor.MovesUp | src/editors/HexEditor.tsx:154-157 | Up/PageUp subtract 16/256 and emit nothing; at or below 0 the cursor goes to byte 0 in UPPER, or stays in CHAR |
| HexEditor.MovesLeft | src/editors/HexEditor.tsx:158-166 | CHAR steps back one byte, clamped at 0; LOWER goes to UPPER on the same byte; UPPER goes to LOWER on the previous byte and is unchanged at byte 0 |
| HexEditor.TypesHexDigit | src/editors/HexEditor.tsx:171-180 | in UPPER a digit emits an "upper" edit and moves to LOWER; in LOWER it emits a "lower" edit and moves to UPPER on the next byte; both moves clear the anchor, while at the last byte the cursor is left exactly as it was |
| HexEditor.TypesByte | src/editors/HexEditor.tsx:132-172 | in CHAR a mapped key, Enter (0x10) or Delete (0) writes a byte and advances, clamped to the last byte; in nibble modes a non-hex key changes nothing |
| HexEditor.TabSwitchesColumn | src/editors/HexEditor.tsx:108-128 | Tab turns UPPER/LOWER into CHAR and Shift+Tab turns CHAR into UPPER, keeping byte and anchor; nothing is emitted |
| HexEditor.ShiftKeepsAnchor | src/editors/HexEditor.tsx:149 | with Shift held, the anchor becomes the old anchor or, without one, the old byte |
| HexEditor.NibblesCompose | src/editors/HexEditor.tsx:173-178 | an "upper" edit followed by a "lower" edit on the same byte writes the byte those two digits spell |
| HexEditor.TypingTwoDigitsWritesByte | src/editors/HexEditor.tsx:171-180 | typing two hex digits from UPPER emits two edits that, applied, write the byte the digits spell |
| HexEditor.ApplyOne | src/editors/hex_replacement.ts:10-36 | a one-edit list, as the editor hands it over, applies as that edit written in place |
| HexEditor.HexByte | src/editors/HexEditor.tsx:74 | a byte is copied as exactly two characters, padded with a leading 0 |
| HexEditor.HexText | src/editors/HexEditor.tsx:74 | copied hex text is empty for no bytes and otherwise three characters per byte less one: two digits each and a space between neighbours |
| HexEditor.CharText | src/editors/HexEditor.tsx:72 | copied character text has one cp1252 character per byte |
| HexEditor.Trimmed | src/editors/HexEditor.tsx:93 | stripping never lengthens the text and leaves only hex digit characters |
| HexEditor.JoinHighLow | src/editors/HexEditor.tsx:96 | the two nibbles of a byte rejoin to the byte |
| HexEditor.Pairs | src/editors/HexEditor.tsx:94-97 | the digits give one byte per pair, rounding up, so an odd last digit still gives a byte |
| HexEditor.CharBytes | src/editors/HexEditor.tsx:88-91 | pasting characters gives at most one byte per character |
| HexEditor.CharPaste | src/editors/HexEditor.tsx:88-91 | the loop keeps exactly the mapped characters' bytes, in order |
| HexEditor.HexPaste | src/editors/HexEditor.tsx:93-97 | stripping, padding and the pair loop give the pairs of the text's hex digits |
| HexEditor.ReadPairs | src/editors/HexEditor.tsx:95-97 | the loop over an even run of digits reads one byte per pair |
| HexEditor.PaddedTrimmed | src/editors/HexEditor.tsx:93-94 | padding an odd run of digits with "0" does not change the bytes read |
| HexEditor.Paste | src/editors/HexEditor.tsx:82-102 | NO_SELECT pastes nothing; otherwise one range edit at the cursor, and the cursor ends on the last pasted byte anchored at the first |
| HexEditor.HexTextDigits | src/editors/HexEditor.tsx:74 | the digits of copied hex text are the bytes' nibbles in order |
| HexEditor.PairsOfNibbles | src/editors/HexEditor.tsx:93-97 | the pairs of the nibbles are the bytes |
| HexEditor.CharTextBytes | src/editors/HexEditor.tsx:72-91 | pasting copied character text gives the bytes back |
| HexEditor.CopyPasteRoundTrip | src/editors/HexEditor.tsx:43-101 | in every selecting mode, copying a selection and pasting the text gives the selected bytes back |
| HexEditor.PasteOwnCopyKeepsBlob | src/editors/HexEditor.tsx:43-102 | pasting a copied selection at its start writes the blob back unchanged and re-selects the same bytes |
| HexEditor.HexLengthBounds | src/editors/HexEditor.tsx:337-340 | the digit count is the least n with x below 16^n |
| HexEditor.ToUint32 | src/editors/HexEditor.tsx:338 | `>>>` first reads its operand as an unsigned 32-bit number |
| HexEditor.AddressDigits | src/editors/HexEditor.tsx:321-340 | the shift loop counts the hex digits of the largest address: none for 0 or less, and exactly its hex length below 2^32 |
| HexReplacement.NewByte | src/editors/hex_replacement.ts:21-29 | a "byte" edit writes its value; an "upper" edit sets the high nibble and keeps the low one; a "lower" edit sets the low nibble and keeps the high one (a value wider than a nibble ORs into the high half, as in the code) |
| HexReplacement.Written | src/editors/hex_replacement.ts:17-31 | an entry emits exactly as many bytes as it covers: its run, or one byte |
| HexReplacement.Emitted | src/editors/hex_replacement.ts:17-30 | the branch that builds an entry's bytes emits what the entry writes |
| HexReplacement.ApplyOne | src/editors/hex_replacement.ts:14-32 | one in-order step pushes the untouched gap and the entry's bytes and moves the position to the entry's end |
| HexReplacement.Apply | src/editors/hex_replacement.ts:10-36 | the loop gives the recursive meaning of applying the list from position 0: gaps and entries in turn, then the rest of the blob, or the out-of-order error |
| HexReplacement.ApplyStops | src/editors/hex_replacement.ts:14 | an entry that starts before the position fails the whole application, whatever was collected |
| HexReplacement.ApplyFailsIffUnordered | src/editors/hex_replacement.ts:14 | applying fails exactly when the list is not ascending and non-overlapping, and then with the out-of-order error |
| HexReplacement.Patch | src/editors/hex_replacement.ts:17-31 | writing one in-bounds entry over the blob keeps the length and puts the entry's bytes at its span |
| HexReplacement.PatchAllOutside | src/editors/hex_replacement.ts:15-34 | bytes outside every entry's span are kept |
| HexReplacement.PatchAllKeepsBelow | src/editors/hex_replacement.ts:15 | entries that all start at or after e leave the bytes below e alone |
| HexReplacement.ApplyReadsFrom | src/editors/hex_replacement.ts:15-34 | applying from a position reads the blob only from that position on |
| HexReplacement.ApplyIsPatchAllFrom | src/editors/hex_replacement.ts:10-36 | from any position, an ordered in-bounds list applies as the blob with every entry written over it, from that position on |
| HexReplacement.ApplyIsPatchAll | src/editors/hex_replacement.ts:10-36 | an ordered in-bounds list applies as the blob with every entry written over it in turn, and the length is kept |
| HexReplacement.Located | src/editors/hex_replacement.ts:41-48 | the search finds the first entry that ends after the offset; every earlier entry ends at or before it; finding none means every entry does |
| HexReplacement.CombinedMeansBoth | src/editors/hex_replacement.ts:51-56 | the merged byte of two nibble edits of different kinds is what the two write one after the other, whatever the old byte |
| HexReplacement.MergedSingle | src/editors/hex_replacement.ts:50-58 | a same-offset merge yields one single edit at that offset, which is the addition itself when it is a "byte" or of the same kind |
| HexReplacement.MergedSingleMeansBoth | src/editors/hex_replacement.ts:50-58 | the merged edit writes what the earlier edit and then the addition write, and is a "byte" exactly when the addition is a "byte" or of the other kind |
| HexReplacement.MergeInPlace | src/editors/hex_replacement.ts:50-58 | the in-place update of the addition gives the merged edit |
| HexReplacement.MergeValues | src/editors/hex_replacement.ts:52-55 | the value updates compute the nibble merge |
| HexReplacement.JoinsPrev | src/editors/hex_replacement.ts:65-72 | a neighbour before the addition joins only as a run that ends exactly where the addition starts |
| HexReplacement.JoinsNext | src/editors/hex_replacement.ts:64-71 | a neighbour after the addition joins only as a run that starts one past the addition |
| HexReplacement.CoalesceInCopy | src/editors/hex_replacement.ts:64-86 | the splices of the coalescing tail compute the coalesced list |
| HexReplacement.SettleInCopy | src/editors/hex_replacement.ts:49-88 | the merge-or-splice on the copied list computes the settled list |
| HexReplacement.AddReplacement | src/editors/hex_replacement.ts:38-89 | the search loop and the splices compute the list that `add_replacement` returns |
| HexReplacement.AddedEdgeCases | src/editors/hex_replacement.ts:39-88 | an empty list becomes the addition alone; an empty range changes nothing; a non-empty range into a non-empty list is refused; a single edit is always accepted |
| HexReplacement.AddedSameOffset | src/editors/hex_replacement.ts:49-58 | an addition landing on a single entry at its own offset replaces that entry in place by the merged edit, then coalesces; a nibble of the same kind just overwrites the entry |
| HexReplacement.AddedNibble | src/editors/hex_replacement.ts:59-63 | a nibble that lands on no single entry at its offset is spliced in at the search location, and nothing is coalesced |
| HexReplacement.AddedJoinsBothNeighbours | src/editors/hex_replacement.ts:66-80 | a byte between two touching bytes turns the three into one range starting at the first |
| HexReplacement.AddedAppendsToRange | src/editors/hex_replacement.ts:72-80 | a byte right after a range is appended to it, and a later entry that does not touch is kept |
| HexReplacement.AddPastLastIsOutOfOrder | src/editors/hex_replacement.ts:41-60 | a byte added just past the only entry is spliced in front of it, and applying the result fails as out of order |
| HexReplacement.AddBeforeKeepsLaterOffset | src/editors/hex_replacement.ts:81-84 | a byte added just before a byte entry makes a run at the later offset, which writes both bytes one place too far on, unlike writing the two edits in turn |
| HexReplacement.AddedFixed | src/editors/hex_replacement.ts:38-89 | the corrected merge fails exactly for a non-empty range into a non-empty list, with the unsupported error |
| HexReplacement.OrderedFromIff | src/editors/hex_replacement.ts:14 | the recursive ordering that apply checks is the pairwise condition: each entry starts at or after the end of the one before |
| HexReplacement.PatchCommute | src/editors/hex_replacement.ts:10-36 | two entries with disjoint spans may be written in either order |
| HexReplacement.AddedFixedKeepsOrderAndMeaning | src/editors/hex_replacement.ts:38-89 | for an ordered, in-bounds list and a single edit outside every range entry, the corrected merge succeeds, keeps the list ordered and in bounds, and writes what the old list followed by the edit writes |
| HexReplacement.ApplyAfterAddFixed | src/editors/hex_replacement.ts:10-89 | under the same conditions, applying the corrected merged list succeeds and equals applying the old list and then writing the edit |
| Archive.ClampIndex | src/path.ts:208 | a `Blob.slice` index resolves into the blob, and an index already inside it is kept |
| Archive.SliceBytes | src/path.ts:208-220 | `blob.slice(start, end)` is the plain sub-range for in-range indices, and never longer than the blob |
| Archive.GetFile | src/path.ts:124-126 | reading a file succeeds exactly for an index below the file count and gives that file |
| Archive.ReplaceFile | src/path.ts:118-123 | replacing a file succeeds exactly for an existing index; the copy has the same file count, the new blob at the index and every other file unchanged |
| ChunkSelect.CountMatches | src/path.ts:167-169 | a list has at most as many matching chunks as it has chunks |
| ChunkSelect.MatchIndex | src/path.ts:167-175 | the selected position holds a matching chunk with exactly n matches before it, and there is none exactly when at most n chunks match |
| ChunkSelect.MatchIndexUnique | src/path.ts:167-175 | a matching chunk with exactly n matches before it is the one selected |
| ChunkSelect.GetChunkById | src/path.ts:179-181 | reading chunk (type, id, n) gives a chunk with that type and id, and fails exactly when at most n chunks match |
| ChunkSelect.ReplaceOccurrence | src/path.ts:164-178 | replacing fails exactly when at most n chunks match; otherwise only the selected position changes, to the new chunk |
| ChunkSelect.ReplaceThenGet | src/path.ts:164-181 | writing a chunk with the same type and id into the selected slot and reading occurrence n back gives that chunk |
| ChunkSelect.ReplaceInCopy | src/path.ts:165-177 | the counting loop over the copied list computes the replacement of occurrence n, or the not-found failure |
| Paths.AncestorTransitive | src/path.ts:4-9 | an ancestor of an ancestor is an ancestor |
| Paths.AncestorSmaller | src/path.ts:4-9 | an ancestor is strictly smaller than the path, so walking up the parent chain ends |
| Paths.NatToString | src/path.ts:128 | a number prints as a non-empty run of decimal digits |
| Paths.ToString | src/path.ts:18-20 | the root prints as "root", and every other path's text extends its parent's text |
| Paths.Suffix | src/path.ts:111-289 | what each non-root address appends to its parent's text is never empty |
| Paths.AncestorStringIsPrefix | src/path.ts:112-288 | the text of every ancestor is a proper prefix of the path's text |
| Paths.SliceEndZeroCollides | src/path.ts:226 | a window ending at 0 and a window running to the end are different paths with the same text |
| Paths.Reverse | src/path.ts:61 | reversing keeps the length and puts element i at the mirrored position |
| Paths.Flatten | src/path.ts:55-62 | the chain of an absent path is empty; otherwise it runs from the root to the path, each element the parent of the next, every element before the last an ancestor of the path |
| Paths.BelowSlices | src/path.ts:42-45 | skipping byte windows reaches the path itself or an ancestor that is not a window, and a blob path stays a blob path |
| Paths.MaterialsSourceIsContainer | src/path.ts:23-53 | the inferred materials source of a chunk path is a chunk-file path: the default file 7 of the root archive, or an ancestor of the chunk |
| Paths.InferMaterialsSource | src/path.ts:23-53 | the loop over byte windows and the recursion compute the materials source |
| PathOps.NewBlob | src/path.ts:135-212 | a new blob holds the given bytes under an identity not used before, and the store's identity counter moves on by one |
| PathOps.KeepsOldTransitive | src/path.ts:136-213 | keeping every old memo entry is transitive |
| PathOps.SpliceWindowShape | src/path.ts:212 | a replacement that fits the window lands at the start, the blob keeps its length, and every byte outside the replaced span is kept |
| PathOps.GetModel | src/path.ts:258-270 | reading an instanced model succeeds exactly when the slot exists and holds the requested model or LOD model, and gives it |
| PathOps.SetModel | src/path.ts:245-257 | writing an instanced model sets the requested model of the slot (an empty entry when the slot is missing, growing the list), keeps the other model of an existing entry and leaves every other slot alone |
| PathOps.SetModelThenGet | src/path.ts:245-270 | reading back the slot just written gives the written chunk |
| PathOps.Resolve | src/path.ts:102-288 | a resolved value has the kind of its path, and a chunk address gives a chunk with its type and id; memo tables only grow, with new entries bounded by the path's size |
| PathOps.SectorMapAt | src/path.ts:105-106 | the sector map is the decoding of the resolved chunk's contents, and nothing is memoised |
| PathOps.ResolveStep | src/path.ts:124-288 | one segment resolves to a value of its kind, only grows the memo tables and passes a parent's error on unchanged |
| PathOps.Replace | src/path.ts:12-288 | replacing never drops a memo entry for an existing blob or archive |
| PathOps.NewSectorMapChunk | src/path.ts:93-97 | the rebuilt sector-map chunk keeps the type and id of its chunk address, and no memo entry is lost |
| PathOps.Handoff | src/path.ts:118-282 | what a segment hands to its parent's `replace` has the parent's kind, and no memo entry is lost |
| PathLaws.ExtendsTransitive | src/path.ts:91-223 | growing the memo tables twice is growing them once |
| PathLaws.ResolveStable | src/path.ts:91-223 | a value once resolved resolves again, unchanged, from any later store that kept every entry |
| PathLaws.StepStable | src/path.ts:124-288 | one segment resolves the same from any later store that kept every entry |
| PathLaws.ResolveAfterReplace | src/path.ts:118-288 | along files, decoded chunk files and chunks, chunk addresses and contents, reading an address of the replaced archive with the memo tables the replace left gives the replacement itself |
| PathLaws.SubGamefileReadBack | src/path.ts:92-104 | a replaced sub-archive is remembered under the new outer archive, so reading it back gives it |
| PathLaws.HandoffFits | src/path.ts:164-194 | what a segment hands to a chunk address is a chunk with that address's type and id |
| PathLaws.ReadBack | src/path.ts:118-197 | the parent reading back what a segment handed it gives the replacement back at the segment |
| PathLaws.ReadBackSlot | src/path.ts:118-197 | a file index or a chunk's contents reads the slot its handoff rebuilt |
| PathLaws.ReadBackDecoded | src/path.ts:134-156 | a decoding segment finds the replacement in the memo table its handoff seeded |
| PathLaws.ReadBackChunkAt | src/path.ts:164-181 | a chunk address selects, in the rebuilt chunk file, the chunk put in its slot |
| PathLaws.SliceResolveAfterReplace | src/path.ts:206-224 | a byte window replaced by a blob of exactly its size reads back as that blob |
| PathLaws.SliceResolveIsWindow | src/path.ts:216-223 | a window read for the first time is a new blob holding `blob.slice(start, end)` |
| PathLaws.SliceReplaceOverflow | src/path.ts:206-211 | a replacement longer than the window is refused |
| PathLaws.HandoffContents | src/path.ts:190-194 | the contents address hands the selected chunk, with only its contents swapped, to the chunk address |
| PathLaws.HandoffChunk | src/path.ts:164-174 | the chunk address hands the chunk file, with only the selected record replaced, to the chunk-file address |
| PathLaws.ContentsEditChangesOneRecord | src/path.ts:164-194 | replacing a chunk's contents rewrites exactly one record of its chunk file: the selected occurrence, with only its contents swapped, count and order kept |

## Left out

- Browser and file I/O are not modelled: file open and save dialogs, drag and drop, the clipboard API and its XHR fallback, the dev-server WebSocket, `open_gamefile` and `save_gamefile`.
- React rendering is not modelled: JSX, dialogs and modals, scrolling rows into view, and the size of canvases. Only the reducers and text transforms behind them are modelled.
- WebGL is not modelled: shader compilation, textures, the collision and model viewers, and mesh drawing. `apply_blend_equation` is modelled by the configuration its setter calls leave; the attribute sync, by the enable and disable calls it issues.
- Asynchrony is left out: each promise is taken as settled in program order. What can happen while `edit_gamefile` waits for its callback is an explicit list of rival events, and the queue learns that a running task finished through an explicit call.
- The external codecs are function values in `Codecs`; their byte formats are not part of this model. The same goes for gamefile, chunk file, chunk, sector map, instanced-model list and VAG decoding and encoding.
- `ChunkSelect.GetChunkById` takes the external `get_chunk_by_id` to pick the occurrence the replace loop counts. That library function is not part of this model.
- The numeric values of the external `ChunkType` enum members are not known here. The model declares them as constants without values, so every property proved holds whatever their values are.
- The decode caches are `WeakMap`s keyed by blob identity. Garbage collection is not modelled: once stored, an entry stays.
- Blob identity is an explicit tag drawn from a counter. `Blob.slice` is modelled on integer bounds only; fractional and NaN bounds are not modelled.
- Floating point is modelled with reals or integers. `alpha_blend_value`'s scaling is not modelled: a pass's fixed alpha is taken as already normalised. No value is rounded to a float, and blend results are not clamped to [0, 1].
- The size text's `toFixed` formatting is not modelled; only the size-mismatch decision is.
- `TableEditor.NumberValue` handles only an optional minus sign followed by decimal digits, which covers every text `IntText` prints. Any other text reads as 0. `+text` would also accept whitespace, fractions, exponents, `0x` prefixes and `Infinity`.
- Number cells hold integers, not doubles.
- `TableEditor.ImportRow` takes the pieces the CSV row pattern matched; the regular expression that splits a line into those pieces is not modelled.
- TableEditor.RowRoundTrip assumes the cell pattern of src/editors/TableEditor.tsx:115 yields exactly the comma-led pieces of the exported row. It does not when the first cell exports as empty text (an empty string). On the row text `,b` the pattern matches only the empty text at index 0. The search then resumes at index 1, where `(^|,)` cannot match, so the rest of the row is lost on import.
- The table dialog's form widgets are not modelled; only the values they save are.
- The image editor's canvas click-to-pixel mapping and its `Math.log2` material-size update are not modelled.
- HexEditor.KeyDown reads a single cursor. The source reads both the rendered `cursor` and the updater's `prev_cursor` (src/editors/HexEditor.tsx:109-124); the two agree whenever React has rendered the last update.
- PathOps.Store keys the slice cache and the sub-archive cache by the address value and the blob or archive value. The source keeps one `WeakMap` per address node object (src/path.ts:91, src/path.ts:205), keyed by object identity, and src/path.ts:93 builds a fresh chunk-blob address node on every call. In the source, two equal-looking address nodes have separate caches: after one replaces a window, the other misses and makes a new blob with `blob.slice`. In the model it hits and returns the replacement blob itself. So the "gives the replacement itself" part of `PathLaws.ResolveAfterReplace` and `PathLaws.SliceResolveAfterReplace` holds in the source only for the same node object. Likewise two distinct archive objects holding the same file blobs share one sub-archive cache entry here.
- Archive.GetFile reports an index past the last file as an error. The external `get_file` is not part of this model; src/App.tsx:221 (`get_file(index) ?? blob`) suggests it answers `undefined` there instead.
- Archive.ReplaceFile reports an index past the last file as an error. The behaviour of the external `replace_file` there is not part of this model.
- AppModel.Minted: a tab list handed back by an edit callback, or installed by a rival update, is a list of existing tab objects and newly built ones. Address objects inside new tabs are taken as given, so two equal address values stand for one object.
- AppModel.EditKeepsValid holds only for callbacks that hand back, as existing tab objects, tabs from the list they were given, and for rival updates that install only tab objects that already exist. A JavaScript callback cannot hand back an object it never saw. The model's callback is an arbitrary function, so the lemma states this as a premise.
- PathOps.GetModel reports a missing (non-LOD) model in an existing slot as a not-found error. The source (src/path.ts:268) returns `undefined` there, which the model's chunk type cannot represent.
- Paths.ToString prints numbers as plain decimal digits. JavaScript's exponent form for magnitudes of 10^21 and above is not modelled.
- Paths.ToString is not injective. `SliceEndZeroCollides` shows a slice ending at 0 printing like a slice with no end, so tab de-duplication by address text can merge two different addresses.
- HexReplacement.AddedFixedKeepsOrderAndMeaning is stated only for a single-byte addition outside every range entry. An addition falling inside a range entry is still spliced in front of that entry, as in the source.
- HexReplacement.Added: a non-empty range added to a non-empty list fails with `Unsupported`, as the source throws; no merge is modelled for that case.
- `async_memo.ts`, `LocationControl.tsx`, the model-viewer component, the other editors' rendering and `config-overrides.js` are not part of this model.

## Findings

| source | as written | input that shows it | evidently intended | confidence | as-written member | corrected member |
|---|---|---|---|---|---|---|
| src/editors/hex_replacement.ts:41-60 | when no entry lies at or past the new offset, the insert location stays at the last index, so the addition is spliced in front of the last entry | list `[byte 0 at offset 0]`, add `byte 1 at offset 1`: the result lists offset 1 before offset 0 and `apply_replacements_to_blob` throws as out of order | append the addition after the last entry | not executed; follows from the proved lemma | HexReplacement.AddPastLastIsOutOfOrder | HexReplacement.AddedFixedKeepsOrderAndMeaning |
| src/editors/hex_replacement.ts:81-84 | a byte that joins the run after it is prepended to that run's bytes, but the run keeps its own offset | list `[0xAA at offset 5]`, add `0xBB at offset 4`: the run becomes `[0xBB, 0xAA]` at offset 5, writing both bytes one place too far on | the joined run starts at the added byte's offset | not executed; follows from the proved lemma | HexReplacement.AddBeforeKeepsLaterOffset | HexReplacement.ApplyAfterAddFixed |
