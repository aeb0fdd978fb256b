# KernelCMS editor and scaffolder: a verified model

A Dafny 4.11 model of the parts of KernelCMS where client-side state is easy to get
wrong, with proofs over all inputs and all runs. `dafny verify dfyconfig.toml` checks
the whole project.

## What is modelled

**The nested form editor** (`Forms`, `DotPath`, `FormHeap`, `Schema`, `RowKeys`,
`RowKeyLoops`, `EditorSession`, `PreviewPatch`, `Sessions`, `LoadSave`). A form is a
finite tree of records and arrays. `FormHeap` has the same data as it lives in memory,
shared mutable nodes, and proves the clone-the-spine write against the tree update.
`EditorSession` defines every row operation twice: `ApplyKeyed` as the inputs compute
it on the keyed form, `ApplyPlain` on data that never had keys. The main theorem,
`Sessions.LoadEditSave`, follows a document through `initialForm`, any session of user
actions and preview patches at any depth, and `buildPayload`: what is saved is what the
plain session gives, provided every drag finds its rows by their ids. That condition is
exact wherever the dragged rows differ in more than their keys.

**The editor/preview protocol** (`LivePreview`, `PreviewProtocol`). The pane's refs are
a class whose handlers are proved against a step function; the editor, the preview page
and two FIFO channels form a transition system, and the theorems are about every run.

**The rich-text field** (`RichText`). Debounce, deduplicated emission, flush and value
sync, over abstract conversions assumed to satisfy three laws (`Pipeline.Lawful`):
sanitizing is idempotent and yields a document, and sanitizing after a trip through
ProseMirror is sanitizing.

**The scaffolder** (`Literals`, `LiteralRoundTrip`, `ModuleText`, `Scaffold`, `Seeding`,
`ConfigModule`). `lit` and the renderers as text over UTF-16 code units, a parser for the
literal grammar they print, the whole generated module as one text that is read back,
and the `@ref` seed interpreter in its two versions: `runSeed`, and the code the module
inlines.

**Small exact algorithms** (`AssetUrl`, `CliArgs`, `Slug`).

## Where the code does not do what it is for

Each of these is a property that is false as one would first state it. The code is
modelled as it is; the exact condition is proved, and a concrete input shows the failure.

- A preview patch can break row keying: writing a row's `_key` can make two keys equal,
  writing `blockType` can bring rows without keys under the editor
  (`Sessions.KeyPatchLosesDrag`, `Sessions.TypePatchUnkeys`). Rows stay keyed with distinct
  keys at every moment exactly when every step passes its `Guard`: a row added to a list
  gets a key that list does not hold, and an accepted patch passes `PatchSafe`
  (`Sessions.SessionKeysIff`). Commuting with stripping needs no condition at all
  (`PreviewPatch.PatchStrip`).
- After such a patch a drag can move the wrong row, or none. Every other action refines its
  plain counterpart whatever the keys are. A drag does if each of its two rows is the first
  with its id (`EditorSession.EditRefinesIff`); that is also necessary if the rows differ
  once stripped, and necessary in general if it is to hold for whatever the rows contain
  (`DragRightForAllRowsIff`). Whole sessions: `Sessions.SessionRefinesIff`.
- A description (or label, or name) can close the header comment, and what follows it is
  then read as code (`ConfigModule.PatternInDescription`, `EarlyCloseBreaks`). The comment
  ends where it should exactly when none of the three closes one (`HeaderEndsIff`), and
  then the module reads back whole (`ModuleLoads`). One that also opens a second comment
  does no harm (`ReopenedLoads`).
- The inlined seed is not `runSeed`: `??` lets `false` and `0` through to the loop, which
  throws, where `||` skips them (`Seeding.FalseEntryThrows`). For a seed that `runSeed`
  finishes, the two do the same exactly when no collection's entry is `false` or `0`; the
  condition for all seeds is `Seeding.Agree` (`ConfigModule.ModuleSeedsAsModelIff`).
- A placeholder that no row registered becomes `undefined`, but what the empty object
  inherits if its name is `constructor` or the like (`Seeding.PlaceholderResolves`).
- Resetting the edit set on overflow does not post, so the editor can come to rest out
  of sync (`PreviewProtocol.OverflowRun`). At rest it is in sync exactly when that branch
  left nothing unsent (`IdleShowsForm`); the next edit recovers (`NextEditIsSent`).
- The comment at `apps/admin/src/views.tsx:239-240` says the announcement avoids the race
  with a frame that is not listening yet. It does not: the iframe's `load` handler posts
  regardless, and the dedupe then suppresses the answer to the announcement
  (`LoadBeforeListenStaysBlank`). The frame shows the last send exactly when that snapshot
  was delivered to a listening frame that has not reloaded since (`IdleShowsForm`).
- Two consecutive emissions of the rich-text field can be equal (`RichText.SameEmissionTwice`);
  consecutive exchanges never are (`ExchangesDiffer`). The next emission differs from the
  last one, whatever is typed, exactly when the value last exchanged with the parent
  serializes like that last emission (`NextEmissionDiffersIff`).
- A late echo replaces the document (`RichText.LateEchoReplaces`). A document given earlier
  and rendered back leaves the field alone exactly when it serializes like the value last
  exchanged (`EchoHarmlessIff`).
- Keying and stripping do not cancel when a row is not a record, and exactly then
  (`RowKeys.StripKeyRecord`).
- Saving an untouched document keeps a stored reference exactly when its `id` is neither
  null nor missing, or is the field's fallback (`LoadSave.ReferenceKeptIff`,
  `PolymorphicReferenceLost`). Saving a second time changes the payload unless every
  reference is settled, and only then not (`LoadSaveFixedPointIff`).

## Hypotheses

- The key generator is an injective sequence whose coming values are not among supplied
  keys (`RowKeys.Injective`, `RowKeys.Used`). Only keying a loaded document and
  `Sessions.OrdinaryGuarded` need it; the exact conditions do not.
- Field lists have unique names, none called `_key` or `blockType` (`Schema.SchemaOk`).
  Configuration validation enforces unique snake_case names
  (`packages/core/src/config.ts:319-336`).
- `JSON.stringify` of a form is an abstract function; deduplication is stated on its result.
- HMAC (RFC 2104) is injective in the message for each secret and never empty.
- Data given to `lit` has identifier keys other than `__proto__`, each once: it prints keys
  unquoted, so others need not read back (`LiteralRoundTrip.HyphenKeyBreaks`). Literals follow
  sections 13.2.4 and 13.2.5 of ECMA-262 and section 7 of RFC 8259.

## Model

| member | source | states |
|---|---|---|
| `FormHeap.GetFormPath` | apps/admin/src/views.tsx:326-333 | the loop over a shared heap returns the node the path denotes, `undefined` for any missing hop |
| `FormHeap.CloneSpine` | apps/admin/src/views.tsx:353-364 | one fresh, distinct copy per path segment, each equal to its original but for the slot on the path; the mid-loop bail-out is dead |
| `FormHeap.ApplyFormPatch` | apps/admin/src/views.tsx:339-365 | changes no existing object, allocates only the spine, denotes the pure tree update; every path that is not a prefix of the patched one leads to the very same reference; returns the same root exactly when path or value is refused |
| `FormHeap.OffSpineShared` | apps/admin/src/views.tsx:353-364 | every slot beside the spine holds the very same reference in copy and original |
| `FormHeap.Duplicate` | apps/admin/src/fields.tsx:391-396 | a fresh list with a fresh shallow row copy after row i; every property but `_key` is shared with the original row |
| `FormHeap.DuplicateIn` | apps/admin/src/fields.tsx:391-396 | duplicating in a list at any path: the new form denotes the tree with the copy spliced in, and twin and original share every property but `_key` |
| `FormHeap.PatchInsideTwin` | apps/admin/src/fields.tsx:391-396 | after a duplicate anywhere in a form, a patch of any path leaves every row it does not lead into the same reference denoting the same tree, both twins included |
| `Forms.GetPut` | apps/admin/src/views.tsx:326-365 | reading any path after a write: ancestors of the leaf see the updated subtree, all other paths read as before |
| `Forms.PatchReadsBack` | apps/admin/src/views.tsx:339-365 | an accepted patch is read back at its path |
| `Forms.PatchTakesIff` | apps/admin/src/views.tsx:339-352 | a patch takes effect exactly for a string or number at a path without empty segments that leads to an existing leaf; every other patch changes nothing |
| `Forms.PatchFrame` | apps/admin/src/views.tsx:339-365 | every path that is not a prefix of the patched one reads as before, for every path and value |
| `Forms.PatchKeepsShape` | apps/admin/src/views.tsx:339-365 | no patch changes which paths resolve, which are leaves, or which are patchable |
| `Forms.PatchTwice` | apps/admin/src/views.tsx:339-365 | a second patch of one path makes the first one irrelevant |
| `Forms.PatchesCommute` | apps/admin/src/views.tsx:339-365 | patches of two distinct paths commute, accepted or not |
| `DotPath.JoinSplit` | apps/admin/src/views.tsx:370-375 | joining the split segments of any path gives the path back |
| `DotPath.SplitJoin` | apps/admin/src/views.tsx:370-375 | splitting joined dot-free segments gives the segments back |
| `DotPath.EnclosingArePrefixes` | apps/admin/src/views.tsx:367-375 | the joined segment-prefixes of a path are exactly the strings that equal it or precede a dot in it |
| `DotPath.PrefixesGrow` | apps/admin/src/views.tsx:367-375 | prefixes are strictly longer the more segments they have |
| `DotPath.ResolvePathPrefixes` | apps/admin/src/views.tsx:370-375 | the loop yields the joined segment-prefixes, longest first |
| `DotPath.FindFieldNode` | apps/admin/src/views.tsx:378-384 | returns the longest stamped path enclosing the clicked one, and nothing exactly when none is stamped |
| `RowKeyLoops.WithRowKeys` | apps/admin/src/fields.tsx:32-48 | the field loop computes the keyed record, threading the key generator, or fails where reading `blockType` off null would |
| `RowKeyLoops.KeyEachRow` | apps/admin/src/fields.tsx:39-44 | the row map keys each row in order, a supplied `_key` overriding the generated one |
| `RowKeyLoops.StripRowKeys` | apps/admin/src/fields.tsx:51-61 | the recursive copy drops every `_key` property at every depth and nothing else |
| `RowKeyLoops.KeySource.GenKey` | apps/admin/src/fields.tsx:26-29 | hands out the next string of the generator |
| `RowKeys.KeyRecordGood` | apps/admin/src/fields.tsx:32-48 | on documents whose rows are records with distinct string keys where supplied: keying succeeds, every list the schema reaches is fully keyed with distinct keys, other properties are untouched |
| `RowKeys.KeysAreKept` | apps/admin/src/fields.tsx:39-44 | a row keeps the `_key` it has; only rows without one get a generated key, in list order |
| `RowKeys.StripKeyRecord` | apps/admin/src/fields.tsx:32-61 | stripping after keying equals stripping alone if and only if every reached row is a record |
| `RowKeys.WithRowKeysIdempotent` | apps/admin/src/fields.tsx:31-48 | keying a keyed document changes nothing, whatever generator is used and whatever the rows were |
| `RowKeys.KeyRecordPresent` | apps/admin/src/fields.tsx:31-48 | after keying every reached row has a `_key`, rows of unknown block types included |
| `RowKeys.KeyingThrowsIff` | apps/admin/src/fields.tsx:39-43 | keying throws if and only if a block list the schema reaches holds null or undefined for a row |
| `RowKeys.KeyedRowKeeps` | apps/admin/src/fields.tsx:39-44 | a keyed row, record or not, holds what spreading it gives under every name its fields do not list, and a generated key only if it had none |
| `Schema.RowFieldsExact` | apps/admin/src/fields.tsx:39-43 | array rows have the array's fields, a block those of the first definition with its `blockType` as slug, or none |
| `RowKeys.KeyFreeSupplied` | apps/admin/src/fields.tsx:20-24 | a document without `_key` of its own supplies no key, so it meets the hypothesis of keying for any key set |
| `RowKeys.StripIdempotent` | apps/admin/src/fields.tsx:50-61 | stripping twice is stripping once |
| `EditorSession.OfferedStrip` | apps/admin/src/fields.tsx:114-261 | the controls on screen do not depend on row keys |
| `EditorSession.FieldTakesInput` | apps/admin/src/fields.tsx:114-261 | every plain, password and reference field takes whatever is typed into it, and only that field changes |
| `EditorSession.ControlsNest` | apps/admin/src/fields.tsx:314-460 | inside a group or an editable row everything is offered that its own fields offer |
| `EditorSession.AddedRowIsEditable` | apps/admin/src/fields.tsx:371-389 | a row can be added to every list, with each block definition, and whatever rows of that definition offer is offered in it at once |
| `EditorSession.EditLands` | apps/admin/src/fields.tsx:238-460 | at any nesting depth an action changes the field its path names, to exactly what the innermost action makes of the value shown there |
| `EditorSession.EditFrame` | apps/admin/src/fields.tsx:238-460 | every path that parts from the action's path reads as before |
| `EditorSession.DragByKeyIsByPosition` | apps/admin/src/fields.tsx:275-281 | with distinct keys, recovering positions from ids and moving is moving by displayed position |
| `EditorSession.DragRightForAllRowsIff` | apps/admin/src/fields.tsx:275-281 | dragging by id moves the right row for whatever rows carry these ids if and only if both rows are the first with their ids |
| `EditorSession.EditRefinesIff` | apps/admin/src/fields.tsx:238-460 | every user action at any nesting depth, stripped, is the same action on plain data, whatever the keys, if drags find their rows by id; and only then where the dragged rows differ once stripped |
| `EditorSession.EditKeepsKeysIff` | apps/admin/src/fields.tsx:314-460 | a user action keeps every reached list fully keyed with distinct keys if and only if the key it hands out is new to the list it adds a row to |
| `EditorSession.RemoveUndoesDuplicate` | apps/admin/src/fields.tsx:391-396 | removing the copy undoes a duplicate, keys and all |
| `EditorSession.RemoveUndoesAdd` | apps/admin/src/fields.tsx:371-389 | removing the last row undoes an addition to a list |
| `EditorSession.DragUndoesDrag` | apps/admin/src/fields.tsx:275-281 | dragging a row back to where it was undoes a drag |
| `PreviewPatch.GetStrip` | apps/admin/src/views.tsx:326-333 | path lookup commutes with stripping; a path through `_key` does not exist on stripped data |
| `PreviewPatch.PatchStrip` | apps/admin/src/views.tsx:339-365 | patching then stripping equals stripping then patching, for every form, path and value |
| `PreviewPatch.TypingIsPatching` | apps/admin/src/fields.tsx:238-460 | typing into an existing leaf at any depth is the preview's patch of its path: the editor and the preview write alike |
| `PreviewPatch.StampedPathHitsRow` | apps/admin/src/preview.tsx:68-74 | the path stamped on row i of the stripped data is row i of the keyed form |
| `PreviewPatch.PatchKeepsKeysIff` | apps/admin/src/views.tsx:339-365 | an accepted patch keeps all lists keyed and distinct if and only if the check that follows the path through the schema passes |
| `PreviewPatch.OrdinaryPatchSafe` | apps/admin/src/views.tsx:339-365 | patches ending in neither `_key` nor `blockType` always pass that check |
| `Sessions.StepKeepsKeysIff` | apps/admin/src/fields.tsx:314-460 | a step keeps every list keyed, distinct and within a key set exactly when its guard holds |
| `Sessions.SessionKeysIff` | apps/admin/src/fields.tsx:314-460 | rows are keyed with distinct keys at every moment of a session exactly when every step passes its guard; no assumption on the generator |
| `Sessions.StepActs` | apps/admin/src/fields.tsx:238-460 | what a step of a session leaves at its path, and that a refused step changes nothing |
| `Sessions.SessionRefinesIff` | apps/admin/src/fields.tsx:238-460 | the stripped form follows the plain session step by step if every drag finds its rows by id, and only then where dragged rows differ once stripped |
| `Sessions.SessionRefines` | apps/admin/src/fields.tsx:238-460 | a session of any length whose drags find their rows, stripped, is the same session on plain data; nothing else is asked of keys or patches |
| `Sessions.GuardedFaithful` | apps/admin/src/fields.tsx:275-281 | in a session that passes every guard all drags find their rows |
| `Sessions.NoDragsFaithful` | apps/admin/src/fields.tsx:314-460 | a session without drags needs no keys at all |
| `Sessions.OrdinaryGuarded` | apps/admin/src/views.tsx:339-365 | with a fresh generator, sessions whose patches end in neither `_key` nor `blockType` pass every guard |
| `Sessions.LoadEditSave` | apps/admin/src/views.tsx:81-119 | `initialForm`, a session, `buildPayload`: the payload is what is picked from the plain session on the normalized document |
| `Sessions.LoadedFaithful` | apps/admin/src/fields.tsx:32-48 | a loaded form with distinct supplied keys meets the condition on drags for every session of ordinary patches |
| `Sessions.KeyPatchLosesDrag` | apps/admin/src/fields.tsx:275-281 | a concrete session where patching `_key` makes the next drag a no-op, so stripped and plain sessions differ |
| `Sessions.TypePatchUnkeys` | apps/admin/src/fields.tsx:403-404 | a concrete patch of `blockType` that leaves an unkeyed row under the editor |
| `LoadSave.InitialForm` | apps/admin/src/views.tsx:87-96 | the loop builds the normalized value of each editable non-password field and keys the rows |
| `LoadSave.BuildPayload` | apps/admin/src/views.tsx:108-119 | the loop picks defined values and non-empty passwords, then strips |
| `LoadSave.PayloadExact` | apps/admin/src/views.tsx:108-119 | for every form: of a password exactly a non-empty text is sent, of every other field its value without row keys, and nothing else |
| `LoadSave.EditableFieldsExact` | apps/admin/src/views.tsx:59-61 | exactly the visible, non-system fields are editable, and they still form a schema |
| `LoadSave.PopulatedListLoadsAsIds` | apps/admin/src/views.tsx:81-85 | a reference list loads as its ids, whichever entries the server populated |
| `LoadSave.SavesWhatWasLoaded` | apps/admin/src/views.tsx:81-119 | an untouched form saves exactly the normalized value of each editable non-password field |
| `LoadSave.SavedValue` | apps/admin/src/views.tsx:87-119 | an untouched field saves its stored value; without one its default; without either an empty list or null |
| `LoadSave.LoadSaveFixedPointIff` | apps/admin/src/views.tsx:81-119 | loading the saved payload and saving again gives the same payload if and only if every normalized reference is plain ids or the field's own default record |
| `LoadSave.ReferenceKeptIff` | apps/admin/src/views.tsx:81-119 | the payload keeps a stored record's reference if and only if its `id` is neither null nor missing, or is the field's fallback |
| `LoadSave.ListedReferencesKeptIff` | apps/admin/src/views.tsx:81-119 | in a list plain entries stay, a record is saved as its own `id`, and a record without one is lost |
| `LoadSave.PolymorphicReferenceLost` | apps/admin/src/views.tsx:81-93 | a `{ relationTo, value }` reference is saved as null |
| `LivePreview.LivePreview.constructor` | apps/admin/src/views.tsx:188-209 | a mounted pane that meets the invariant: nothing sent, nothing pending but the first effect |
| `LivePreview.LivePreview.PostNow` | apps/admin/src/views.tsx:218-227 | posts the stripped form unless an edit is running or it equals the last send |
| `LivePreview.LivePreview.RequestFrame` | apps/admin/src/views.tsx:231-237 | requests a frame only if none is pending |
| `LivePreview.LivePreview.OnFrame` | apps/admin/src/views.tsx:233-236 | keeps the pane invariant; the frame clears the ref and posts if ready |
| `LivePreview.LivePreview.OnMessage` | apps/admin/src/views.tsx:242-269 | keeps the pane invariant, at most 16 edits included; ready, edit-start with the overflow reset, edit-end; other messages leave the pane alone |
| `LivePreview.LivePreview.OnEffects` | apps/admin/src/views.tsx:275-277 | keeps the pane invariant, so at most one frame is ever held; the effect requests one once ready |
| `LivePreview.LivePreview.OnLoad` | apps/admin/src/views.tsx:314-317 | keeps the pane invariant, so no snapshot goes out twice in a row; the load event marks ready and posts |
| `LivePreview.LivePreview.OnUnmount` | apps/admin/src/views.tsx:280-285 | keeps the pane invariant, so no frame is left; the pending one is cancelled |
| `PreviewProtocol.RunKeepsInv` | apps/admin/src/views.tsx:206-317 | the protocol invariant holds along every run of editor, preview and both channels |
| `PreviewProtocol.Converges` | apps/admin/src/views.tsx:206-285 | in every reachable mounted, ready state the last send is the current form, or an effect or frame is pending, or an edit is running, or the overflow reset left something unsent; at most one frame, at most 16 edits |
| `PreviewProtocol.IdleShowsForm` | apps/admin/src/views.tsx:206-317 | an idle editor is in sync exactly when nothing is stale, and with an empty channel the frame shows the last send exactly when nothing was lost |
| `PreviewProtocol.NextEditIsSent` | apps/admin/src/views.tsx:274-277 | from any reachable ready state with no edit running, a new form is the last send after its effect and one frame |
| `PreviewProtocol.EditStartTaken` | apps/admin/src/views.tsx:250-257 | an edit-start adds its path and posts nothing; with 16 paths there it drops all of them |
| `PreviewProtocol.EditEndTaken` | apps/admin/src/views.tsx:264-268 | an edit-end ends the edit of its path; if no other is left the current form is the last send, otherwise nothing is posted |
| `PreviewProtocol.EditRoundSends` | apps/admin/src/views.tsx:218-268 | a whole inline edit: nothing is posted from its start to its end whatever is rendered meanwhile, and then the form rendered last is the last send |
| `PreviewProtocol.ReadyTaken` | apps/admin/src/views.tsx:246-249 | the announcement, like the load event, makes the editor ready and the current form the last send unless an edit is running |
| `PreviewProtocol.FrameTaken` | apps/admin/src/views.tsx:231-277 | an effect requests at most one frame, only when ready; a frame posts only when ready and no edit is running |
| `PreviewProtocol.UnmountTaken` | apps/admin/src/views.tsx:280-285 | unmounting leaves no frame and posts nothing |
| `PreviewProtocol.HoldsLastForm` | apps/admin/src/views.tsx:190-191 | while mounted the pane holds the form last rendered, whatever else happened |
| `PreviewProtocol.SilentUntilReady` | apps/admin/src/views.tsx:218-277 | before the frame loads or announces itself, and starts or ends no edit, nothing is posted |
| `PreviewProtocol.AppliedInOrder` | apps/admin/src/preview.tsx:49-60 | applied snapshots are an ordered selection of those posted; consecutive posts differ; the last applied is shown |
| `PreviewProtocol.SilentWhileEditing` | apps/admin/src/views.tsx:203-221 | between an edit-start and its edit-end nothing is posted, unless the overflow reset fires |
| `PreviewProtocol.SilentAfterUnmount` | apps/admin/src/views.tsx:279-285 | after unmount no frame is pending and nothing is posted |
| `PreviewProtocol.NoOverflowNotStale` | apps/admin/src/views.tsx:254-260 | a run without the overflow reset never leaves anything stale |
| `PreviewProtocol.ListeningNotLossy` | apps/admin/src/preview.tsx:49-60 | once the frame listens and never reloads, no snapshot is lost |
| `PreviewProtocol.ListenFirstShowsForm` | apps/admin/src/preview.tsx:49-60 | listener before the first post, no reload, no overflow: an idle editor with an empty channel is showing its form |
| `PreviewProtocol.LoadBeforeListenStaysBlank` | apps/admin/src/views.tsx:239-249 | a concrete run: `load` posts before the page listens, and the dedupe suppresses the answer to its announcement |
| `PreviewProtocol.OverflowRun` | apps/admin/src/views.tsx:254-260 | a concrete run into an idle, out-of-sync editor through the overflow reset |
| `RichText.AsDocFixedIff` | apps/admin/src/RichTextEditor.tsx:46-52 | every value becomes a document and exactly the documents pass unchanged |
| `RichText.AsDocShows` | apps/admin/src/RichTextEditor.tsx:46-52 | a non-blank string is shown as one paragraph holding that very text; blank strings and other values as the empty document |
| `RichText.AsDocKeepsText` | apps/admin/src/RichTextEditor.tsx:48-50 | different non-blank strings become different documents |
| `RichText.RichTextEditor.constructor` | apps/admin/src/RichTextEditor.tsx:295-343 | mounting converts the value and seeds the guard, which establishes the field invariant |
| `RichText.RichTextEditor.EmitNow` | apps/admin/src/RichTextEditor.tsx:307-313 | emits the sanitized document unless it equals the last emission |
| `RichText.RichTextEditor.FlushNow` | apps/admin/src/RichTextEditor.tsx:316-321 | disarms a debounce and emits; does nothing without one |
| `RichText.RichTextEditor.OnTransaction` | apps/admin/src/RichTextEditor.tsx:329-339 | keeps the field invariant; a document change re-arms the debounce, a selection change does not |
| `RichText.RichTextEditor.OnTimer` | apps/admin/src/RichTextEditor.tsx:337-337 | keeps the field invariant; the debounce fires and emits, leaving its id in the ref |
| `RichText.RichTextEditor.OnSync` | apps/admin/src/RichTextEditor.tsx:365-376 | keeps the field invariant; a value other than the last exchanged one replaces the document |
| `RichText.RichTextEditor.OnTeardown` | apps/admin/src/RichTextEditor.tsx:345-351 | keeps the field invariant, so nothing stays armed; flushes, then unmounts |
| `RichText.RunKeepsInv` | apps/admin/src/RichTextEditor.tsx:295-376 | the field invariant holds along every run |
| `RichText.PendingOrEmitted` | apps/admin/src/RichTextEditor.tsx:305-343 | at every moment a debounce is armed or the last emission is the document; the sync effect of the mount replaces nothing |
| `RichText.NothingLost` | apps/admin/src/RichTextEditor.tsx:315-351 | blur and teardown leave the document and make it the last value exchanged with the parent; teardown unmounts |
| `RichText.SilentAfterTeardown` | apps/admin/src/RichTextEditor.tsx:345-351 | no timer survives teardown, so nothing is emitted after it |
| `RichText.ExchangesDiffer` | apps/admin/src/RichTextEditor.tsx:305-313 | consecutive exchanges with the parent, in either direction, carry documents that serialize differently |
| `RichText.NextEmissionDiffersIff` | apps/admin/src/RichTextEditor.tsx:305-376 | at every reachable moment, whatever is typed next, the next emission differs from the last one if and only if the value last exchanged serializes like that emission |
| `RichText.EchoFromMount` | apps/admin/src/RichTextEditor.tsx:363-376 | a parent that echoes each emission before the next never causes the document to be replaced |
| `RichText.EchoHarmlessIff` | apps/admin/src/RichTextEditor.tsx:363-376 | at every reachable moment, rendering back a document given at any earlier time leaves document and log alone if and only if it serializes like the value last exchanged; otherwise it replaces the document |
| `RichText.TakesOverIff` | apps/admin/src/RichTextEditor.tsx:365-376 | at every reachable moment any value from outside replaces the document, by itself, if and only if it serializes unlike the value last exchanged; nothing else changes |
| `RichText.TimerGives` | apps/admin/src/RichTextEditor.tsx:305-339 | a debounce that runs out gives the parent the document as it is unless the parent has it; a selection change does nothing |
| `RichText.LateEchoReplaces` | apps/admin/src/RichTextEditor.tsx:363-376 | an echo one emission late does replace it |
| `RichText.SameEmissionTwice` | apps/admin/src/RichTextEditor.tsx:305-313 | with a take-over between, the same document can be emitted twice in a row |
| `Literals.ParseEscaped` | packages/create-kernel/models.js:485-485 | unescaping a JSON-escaped string gives the string back and stops at the closing quote, lone surrogates included |
| `LiteralRoundTrip.LitRoundTrip` | packages/create-kernel/models.js:483-498 | parsing what `lit` printed, at any blank indentation, returns the value and leaves any delimiter-led suffix unread |
| `LiteralRoundTrip.LitInjective` | packages/create-kernel/models.js:483-498 | equal texts print equal data, at any two indentations |
| `LiteralRoundTrip.EscapePlainIff` | packages/create-kernel/models.js:485-485 | outside surrogates a string prints as it is if and only if it has no control character, quote or backslash |
| `LiteralRoundTrip.HyphenKeyBreaks` | packages/create-kernel/models.js:496-496 | a key with a hyphen, printed unquoted, gives text that cannot be read, whatever follows; so keys must be names |
| `LiteralRoundTrip.JoinIsItems` | packages/create-kernel/models.js:490-491 | joining with commas plus the trailing comma is one comma per item |
| `Scaffold.ParseItem` | packages/create-kernel/models.js:501-527 | a rendered collection or global evaluates to its own entries with the open rule and the fields defined last |
| `Scaffold.EvaluatedIsRuntime` | packages/create-kernel/models.js:469-474 | that object is, key order aside, the one `buildRuntime` makes; an `access` of the model's own is overridden in both |
| `Scaffold.ItemsHold` | packages/create-kernel/models.js:469-527 | both hold `{ read: () => true }` under `access`, and under every other name what the model's own item has there |
| `Scaffold.ParseList` | packages/create-kernel/models.js:531-532 | a rendered list evaluates to the evaluated items in order |
| `ModuleText.ClosesAfterIff` | packages/create-kernel/models.js:540-546 | a block comment ends right after a text if and only if the text closes no comment itself |
| `ModuleText.ConfigTemplateOk` | packages/create-kernel/models.js:536-563 | the template's own text starts with a word after the header, and ends the view and the seed data where reading them stops |
| `ConfigModule.HeaderEndsIff` | packages/create-kernel/models.js:536-546 | in the whole rendered module the header comment ends where it is meant to if and only if neither label, name nor description closes a comment |
| `ConfigModule.HeaderReads` | packages/create-kernel/models.js:540-546 | label, name and description each stand at their own place in the header |
| `ConfigModule.ModuleLoads` | packages/create-kernel/models.js:530-593 | with the header intact, reading the whole module gives every slot back at its place, for every model and whatever the fixed text |
| `ConfigModule.ModuleIsRuntime` | packages/create-kernel/models.js:469-593 | then its collections and globals are, key order aside, those of `buildRuntime`, and its view and seed data are the model's |
| `ConfigModule.EarlyCloseBreaks` | packages/create-kernel/models.js:540-546 | a description that closes the comment with anything after it but a blank, a comment or a word leaves a module that cannot be read |
| `ConfigModule.PatternInDescription` | packages/create-kernel/models.js:542-542 | a concrete description with a file pattern breaks the module |
| `ConfigModule.ReopenedLoads` | packages/create-kernel/models.js:540-546 | a description that closes the comment and at once opens another one does no harm |
| `ConfigModule.ModuleSeedsAsModelIff` | packages/create-kernel/models.js:450-591 | the inlined seed does to every kernel what `runSeed` does, calls and TypeErrors, if and only if the two agree on every entry up to the first that stops one; for seeds `runSeed` finishes, if and only if no collection's entry is `false` or `0` |
| `Seeding.ResolveRowLoop` | packages/create-kernel/models.js:436-446 | the loop drops `_ref` and resolves placeholders in strings and arrays of strings |
| `Seeding.PlainValueKept` | packages/create-kernel/models.js:436-446 | in a created row only `_ref` is dropped, no key is added, and a value that is neither a list nor a text starting with `@` stays |
| `Seeding.PlainItemKept` | packages/create-kernel/models.js:441-442 | items of a list that are no placeholders stay, texts included |
| `Seeding.RunSeed` | packages/create-kernel/models.js:450-465 | either program's loops: each row created once in collection-then-row order, then each global updated, ending early exactly where it throws |
| `Seeding.SeedCollection` | packages/create-kernel/models.js:455-459 | the loop over one collection's rows continues the calls and the reference map, and throws at a row that is null |
| `Seeding.SetGlobals` | packages/create-kernel/models.js:461-464 | one updateGlobal per entry, in order |
| `Seeding.EntryReads` | packages/create-kernel/models.js:455-456 | how an entry is read: nothing, a list up to its first null row, a text by code points, a TypeError otherwise |
| `Seeding.NameRegistered` | packages/create-kernel/models.js:458-458 | which name a row registers: the text of its `_ref` unless missing, empty, zero or false |
| `Seeding.PlanStops` | packages/create-kernel/models.js:454-460 | a run that throws stops there: nothing of a later collection is created |
| `Seeding.ProgramsAgreeIff` | packages/create-kernel/models.js:450-591 | `runSeed` and the inlined code have the same outcome on every kernel if and only if the seed's entries agree |
| `Seeding.FinishedAgreeIff` | packages/create-kernel/models.js:455-455 | where `runSeed` finishes, that is exactly when no collection's entry is `false` or `0` |
| `Seeding.FalseEntryThrows` | packages/create-kernel/models.js:581-582 | a seed with `false` for a collection: `runSeed` skips it, the inlined code throws |
| `Seeding.RefsTrackRegistrations` | packages/create-kernel/models.js:452-458 | the reference map holds exactly the registered names, each as the id of its last registration; the name is the text of any truthy `_ref` |
| `Seeding.CreatesInOrder` | packages/create-kernel/models.js:454-460 | the i-th call creates the i-th listed row, resolved against the registrations of earlier rows only |
| `Seeding.PlaceholderResolves` | packages/create-kernel/models.js:440-440 | a placeholder becomes the id of the last earlier row that registered its name, and without one `undefined` or the inherited property of that name |
| `Seeding.PlaceholderInListResolves` | packages/create-kernel/models.js:441-442 | the same for placeholders inside a list of values |
| `Seeding.PlannedAt` | packages/create-kernel/models.js:454-456 | unless the program has thrown before, the k-th row listed for a collection comes right after the rows of the collections before it, with its own entries |
| `Seeding.CreatedAt` | packages/create-kernel/models.js:456-458 | each row in that order is created by the call at its place, resolved against earlier registrations |
| `Seeding.GlobalsComeLast` | packages/create-kernel/models.js:461-464 | after the last row come exactly the global updates, in order, unless the run threw |
| `Seeding.GlobalsListed` | packages/create-kernel/models.js:461-464 | each global listed under `_globals` is updated with its own values, and without an entry there nothing is |
| `AssetUrl.MessageInjective` | packages/core/src/asset-urls.ts:17-19 | the signed message determines key and expiry, even for keys with newlines and digits |
| `AssetUrl.ValidIffIssued` | packages/core/src/asset-urls.ts:17-44 | a signature is valid for a request exactly when issued for that key and that numeric expiry |
| `AssetUrl.VerdictExact` | packages/core/src/asset-urls.ts:26-44 | for every request, parameters missing or malformed included: valid exactly with 1 to 15 digits and the signature of key and number, expired exactly when that number has passed, nothing else is either |
| `AssetUrl.ExpiryIsExact` | packages/core/src/asset-urls.ts:33-34 | an accepted expiry is below 2^53 |
| `AssetUrl.LeadingZeroSameVerdict` | packages/core/src/asset-urls.ts:33-43 | a leading zero changes no verdict |
| `AssetUrl.ExpiryIsFinal` | packages/core/src/asset-urls.ts:43-43 | an expired link stays expired |
| `AssetUrl.IssuedLinkWorksUntilExpiry` | packages/core/src/asset-urls.ts:17-44 | an issued link works strictly before its expiry and never from then on; expiries of more than 15 digits never work |
| `CliArgs.ParseArgs` | packages/cli/src/index.ts:60-79 | the skipping loop reads argv as the item reading does: positionals in order, later flags winning |
| `CliArgs.LastFlagWins` | packages/cli/src/index.ts:66-73 | for any argv a flag has the value of its last occurrence, and a name that never occurs is absent |
| `CliArgs.PositionalsInOrder` | packages/cli/src/index.ts:60-79 | positionals are reported in order, flags among them or not, the first one as the command |
| `CliArgs.TokensConserved` | packages/cli/src/index.ts:60-79 | every token is consumed exactly once and in order |
| `CliArgs.ParsePrintIff` | packages/cli/src/index.ts:60-79 | parsing inverts printing exactly on readable item lists |
| `CliArgs.FlagOrderIrrelevant` | packages/cli/src/index.ts:66-72 | distinct flags give the same flag map in any order |
| `CliArgs.CanonicalRoundTrip` | packages/cli/src/index.ts:60-79 | printing positionals then distinct flags in any order and parsing returns them |
| `Slug.ToSlugNormal` | packages/cli/src/templates.ts:4-11 | every output is empty or lowercase alphanumeric segments joined by single underscores |
| `Slug.ToSlugFixedIff` | packages/cli/src/templates.ts:4-11 | `toSlug` is the identity on exactly those strings, so idempotent |
| `Slug.ToSlugKeepsLetters` | packages/cli/src/templates.ts:4-11 | the letters and digits of the name survive in order, lowercased |
| `Slug.ToSlugJoin` | packages/cli/src/templates.ts:4-11 | a run of other characters between letters or digits becomes one separator, so does a lowercase-uppercase boundary, and nowhere else is one put |
| `Slug.ToSlugEdges` | packages/cli/src/templates.ts:4-11 | one letter or digit is its own slug, lowercased; other characters around a name leave no trace |
| `Slug.ToCamelJoin` | packages/cli/src/templates.ts:14-16 | each separator before a letter or digit goes and the letter becomes uppercase; a name without separators stays |
| `Slug.CamelRoundTripIff` | packages/cli/src/templates.ts:14-16 | a slug survives camel case and back exactly when later segments start with a letter and no interior segment is one character |

## Left out

- Inherited property names and the `length` of arrays as path segments: the code reads both with plain `node[seg]`; in the model they read as `undefined`.
- Property order of form records: a record is a map, so the order `JSON.stringify` sees is not modelled.
- React rendering, the DOM, drag sensors and the iframe: they appear only as events; `arrayMove` is its specification.
- When handlers run: every user action is computed from the latest form. In the code a handler closes over the rows it was rendered with, so a patch queued before the next render is overwritten by the click.
- Custom field components and read-only fields: the editor's built-in inputs only.
- Rows that are not records inside an edit: keying covers them, user actions on them are not offered in the model.
- EditorSession.DragRightForAllRowsIff: the id text of a key that is a fraction, a number printed with an exponent, a record or a list is not modelled; such a key counts as its own id.
- EditorSession.EditRefinesIff: where dragged rows are equal once stripped, a drag that misses its rows may still leave the right result; there the condition is sufficient only. The row operations are proved on trees; on the heap only path reads, patches and `duplicate` are, because the others build new lists from old rows and the aliasing question arises only for the shallow copy.
- RowKeyLoops.WithRowKeys: proved on values; it copies every record and row list it changes, and sharing of the rest is not tracked.
- RichText.RichTextEditor.constructor: remounting on a schema change is not modelled, a new field schema is a new editor; and a render whose value is the same reference is not skipped, every render event brings a value whose effect runs.
- LoadSave.BuildPayload: the narrower field list of upload collections, and the variant for globals without defaults, are not modelled.
- LoadSave.ReferenceKeptIff: an `id` that is itself a record is not covered.
- Seeding.RunSeed: a `_ref` that is a record naming `toString` or `valueOf` itself, or a number printed with an exponent, has another text in the model; and a collection without a string slug counts as one with the empty slug.
- ConfigModule.ModuleLoads: the fixed TypeScript between the slots is compared, not parsed; the code after the seed data is any text, its two functions being what `Seeding` interprets; and `defineConfig` is taken to keep the lists it is given.
- ConfigModule.EarlyCloseBreaks: text after an early close that starts with a word may or may not be TypeScript; only the header's own end, not the meaning of such text, is decided.
- LiteralRoundTrip.LitRoundTrip: numbers are integers; floats and numbers printed with an exponent are not covered.
- AssetUrl.ValidIffIssued: expiries to sign are non-negative integers, and comparing signatures in constant time is plain equality.
- CliArgs.ParseArgs: a flag named `__proto__` is an ordinary key.
- The engine, server and database packages, network and file access, authentication screens, connectors, theme, locale: not part of this model.
- Model choice by keywords, tab grouping, sort toggling, the command palette: each is a single pass over a list with no state to keep consistent.
