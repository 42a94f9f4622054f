# collab-vim: the collaborative edit pipeline, modelled in Dafny

collab-vim lets several people edit one file at once. Vim runs in the
browser, and a realtime document holds the shared text. Edits move both
ways as dictionary messages:

- **Vim to realtime.** Vim sends an edit message. `applyLocalEdit` applies it
  to the shared list of lines.
- **Realtime to Vim.** When the shared document changes, the realtime
  handlers (`syncModel`, `onCursorChanged`, `onLineAdded`, `onLineRemoved`,
  `onTextInserted`, `onTextDeleted`) build edit messages for Vim. A
  receiving thread turns each message into a `collabedit_T` and queues it.
  Vim's main thread drains the queue.

This project models four parts of that pipeline.

- **The edit data model** of `collab_structs.h`. Module `CollabStructs` has
  one `Payload` constructor per union member. Because of that, the type tag
  (`TypeOf`) always picks exactly one payload. The field comments become
  validity predicates:
  - append lines are 0 or more, and other line numbers are 1 or more;
  - indices and lengths are non-negative;
  - append and replace texts do not end with a newline;
  - user ids use only `[a-zA-Z0-9_]`;
  - a sync's `nlines` equals the number of its lines.

  `ApplyToLines` defines what each line edit does to a list of lines.
- **The edit queue** of `collaborate.c`. Module `Collaborate` has the class
  `EditQueue` over linked `Node` objects, with ghost `contents` and a ghost
  count of wake-up signals. Its methods are enqueue, dequeue, the pending-key
  check and the drain loop. Module `AsWrittenQueue` models `collab_enqueue`
  and `collab_dequeue` exactly as written, over an explicit heap, and shows
  two defects in them (see Findings).
- **The wire format and codec.** Module `Wire` holds the message keys and
  the type tags. Module `Codec` stands in for the message codec declared in
  `vim_pepper.h`. The header declares the codec but does not define it, so
  this model defines its own encoder and decoder over the same keys. Of
  Vim's real decoder it claims only the declared contract: it returns
  nothing for a message that is not a well-formed edit. Every other fact
  below about encoding or decoding holds of the model's codec, not of Vim's.
  Module `JsText` gives the JavaScript text conversions the handlers use:
  integer `toString`, `parseInt`, `split` and array `toString`.
- **The realtime side** of `vim_realtime.js`.
  - Module `IndexCaches` holds the `IndexCache` class: a circular array of
    line ids, a map from ids to indices, and the `oldest` slot.
  - Module `RtVim` holds `applyLocalEdit` as a pure function over the
    document state. A JavaScript exception becomes the outcome `Fault`.
  - `syncModel` and the list handlers are methods with loops. The other
    handlers are functions or methods over an abstract event.

The main results are these:

- For every well-formed edit, the model's decoder gives back the edit from
  the model's encoding of it.
- `applyLocalEdit` carries out every encoded line edit exactly as that edit
  is defined.
- The append and remove batches that the realtime handlers build replay to
  the same insertion or removal of lines.
- The cursor text round-trips through `split` and `parseInt`.
- The corrected queue is a FIFO, and a drain hands out every queued edit in
  order. The queue as written loses edits (see Findings).

Two behaviours of the queue shape its contracts:

- **The pending flag.** Every enqueue sets the flag (collaborate.c:52). Only
  a dequeue that finds the queue empty clears it (collaborate.c:67-70). So
  after the last edit leaves, the flag stays set until the next empty
  dequeue, and it does not mean "the queue is non-empty". The model keeps
  only the direction "queued edits imply the flag is set".
- **The drain.** The drain dequeues one edit at a time (collaborate.c:79).

## Model

| member | source | states |
|---|---|---|
| CollabStructs.TypeOf | vim73/src/collab_structs.h:28-43 | Each of the seven type values names exactly one union member: the type is AppendLine if and only if the payload is an append_line, and likewise for every other kind. |
| CollabStructs.ValidPayload | vim73/src/collab_structs.h:38-86 | The field comments as one condition per union member: an append line is 0 or more, every other line is 1 or more, indices and cursor columns are non-negative, append and replace texts do not end with a newline, user ids match [a-zA-Z0-9_]*, and a sync's nlines equals its number of lines. |
| CollabStructs.ValidEdit | vim73/src/collab_structs.h:38-86 | An edit is well formed exactly when its payload meets its union member's field conditions. |
| CollabStructs.AppendAfter | vim73/src/collab_structs.h:46-50 | Appending after line L puts the text at position L, so line 0 gives a new first line. Lines before it keep their places, and lines after it move down by one. |
| CollabStructs.RemoveLineAt | vim73/src/collab_structs.h:59-61 | Removing 1-based line L drops position L-1. Earlier lines keep their places, and later lines move up by one. |
| CollabStructs.InsertTextAt | vim73/src/collab_structs.h:52-57 | The text lands before character `index`. The characters before and after it are kept. |
| CollabStructs.DeleteTextAt | vim73/src/collab_structs.h:63-67 | Exactly `length` characters starting at `index` are removed. The rest of the line is kept on both sides. |
| CollabStructs.DeleteUndoesInsert | vim73/src/collab_structs.h:52-67 | Deleting exactly the inserted text at the insert index restores the line. |
| CollabStructs.ApplyToLines | vim73/src/collab_structs.h:38-73 | An append adds one line holding its text. A remove drops one line. A replace or a text edit keeps the line count and changes only line L-1. An edit whose position is outside the buffer has no result. |
| Collaborate.EditQueue.constructor | vim73/src/collaborate.c:17-21 | The queue starts empty, with the flag clear. |
| Collaborate.EditQueue.Enqueue | vim73/src/collaborate.c:33-56 | The contents become old + [e], and on an empty queue the new node is both head and tail. The flag is set, and there is one more wake-up signal. The queue invariant is kept: the nodes are linked and distinct, and the signal count equals the queue length. |
| Collaborate.EditQueue.Dequeue | vim73/src/collaborate.c:58-75 | On a non-empty queue it returns old[0] and leaves old[1..], with one signal fewer. On an empty queue it returns None and clears the flag. The invariant is kept. |
| Collaborate.EditQueue.PendingCollabEdits | vim73/src/collaborate.c:87-99 | It pushes exactly CSI, KS_EXTRA, KE_COLLABEDIT if and only if the flag is set, and nothing otherwise. It changes nothing, and a non-empty queue always pushes the keys. |
| Collaborate.EditQueue.ProcessCollabEdits | vim73/src/collaborate.c:77-85 | The drain loop hands out exactly the queued edits in FIFO order, and leaves the queue empty with the flag clear. |
| Collaborate.EnqueueThenDrain | vim73/src/collaborate.c:33-85 | Enqueuing a sequence of edits and then draining returns the earlier contents followed by those edits, in order. |
| AsWrittenQueue.RawEnqueue | vim73/src/collaborate.c:33-56 | `collab_enqueue` as written keeps the heap well formed and sets the flag. |
| AsWrittenQueue.RawDequeue | vim73/src/collaborate.c:58-75 | `collab_dequeue` as written keeps the heap well formed. |
| AsWrittenQueue.DequeueReadsReleasedNode | vim73/src/collaborate.c:65-66 | Every dequeue of a non-empty queue reads the node it has just released. |
| AsWrittenQueue.StaleTailLosesEdit | vim73/src/collaborate.c:42-50 | Take enqueue e1, dequeue, enqueue e2. The second enqueue writes into the released node and the head stays NULL. The next dequeue reports the queue empty, so e2 is lost. The model's allocator never reuses an address. |
| Wire.TagsDistinct | web/vim_realtime.js:103-109 | The seven type tags are pairwise distinct. |
| JsText.ParseIntOfIntToString | web/vim_realtime.js:384-385 | `parseInt` recovers every integer from its `toString` text. |
| JsText.SplitAtFirstSeparator | web/vim_realtime.js:383 | Splitting on ',' yields the text before the first ',' and then the split of the rest. |
| JsText.SplitWithoutSeparator | web/vim_realtime.js:383 | A text without ',' splits into itself alone. |
| Codec.TypeFromNameOfTypeName | web/vim_realtime.js:103-109 | Every kind's tag is read back as that kind. |
| Codec.Encode | vim73/src/vim_pepper.h:37-40 | The message carries the edit's type tag and its buffer id. |
| Codec.Decode | vim73/src/vim_pepper.h:31-35 | A decoded edit is well formed by the field comments, and its tag and buffer id are those of the message. A message without a type key decodes to nothing. |
| Codec.DecodeEncode | vim73/src/vim_pepper.h:31-40 | For every well-formed edit, the model's decoder gives back the same edit, field for field, from the model's encoding of it. |
| Codec.EncodeInjective | vim73/src/vim_pepper.h:37-40 | Two well-formed edits with the same message under the model's encoder are equal. |
| IndexCaches.CapacityFor | web/vim_realtime.js:30 | The capacity is the requested one, or 50 when it is 0 or absent. It is always positive. |
| IndexCaches.PositionOf | web/vim_realtime.js:48 | The result is the first position of the id, or -1 exactly when the id is absent. |
| IndexCaches.IndexCache.constructor | web/vim_realtime.js:25-35 | The new cache is empty and valid, its array has the capacity from `CapacityFor`, and `oldest` is 0. |
| IndexCaches.IndexCache.Insert | web/vim_realtime.js:64-75 | Only the entry in slot `oldest` is evicted. The id takes that slot with the given index, and `oldest` advances modulo the capacity. Every cached id stays in exactly one slot. |
| IndexCaches.IndexCache.IndexOf | web/vim_realtime.js:44-57 | A cached id returns its cached index and changes nothing. An uncached id in the list returns its position and is cached as Insert does: slot `oldest` gets the id, only that slot's old id is evicted, every other cached index is kept, and `oldest` advances modulo the capacity. An absent id returns None and changes nothing. A coherent cache stays coherent, and then the result is a position holding the id. |
| IndexCaches.IndexCache.ShiftFrom | web/vim_realtime.js:85-92 | It adds `amount` to exactly the cached indices at or above `index`, leaves the other entries alone, and keeps the same keys, the same slot array and the same `oldest`. |
| IndexCaches.NextSlot | web/vim_realtime.js:72-74 | Increment-then-wrap equals advancing modulo the capacity. |
| IndexCaches.OverwriteSlotKeepsSlotsHold | web/vim_realtime.js:66-70 | Overwriting slot `oldest` with an uncached id evicts only that slot's id, which keeps the one-slot-per-id invariant. |
| IndexCaches.ShiftAfterInsertKeepsCoherent | web/vim_realtime.js:77-92 | After lines are inserted at `index` and the cache is shifted by their number, every cached index is right for the new list. |
| IndexCaches.ShiftAfterRemoveKeepsSurvivorsCoherent | web/vim_realtime.js:12-19 | After lines are removed at `index` and the cache is shifted by minus their number, every cached line that was not removed keeps a right index. |
| RtVim.LocalUserId | web/vim_realtime.js:224-231 | The result is the id of the first collaborator marked as the local user, or "" when there is none. |
| RtVim.FindLocalUserId | web/vim_realtime.js:224-231 | The search loop computes exactly `LocalUserId`. |
| RtVim.ApplyLocalEdit | web/vim_realtime.js:206-263 | A message with no data or no truthy type is not consumed, and every other message is. A sync request sets needSync; with a document loaded it posts the sync message and clears needSync. Without a document, other edits are consumed with no effect, and so are unknown types. Only a sync posts anything. |
| RtVim.TagSelectsKind | web/vim_realtime.js:210-257 | A type field holding a kind's tag is truthy. It matches that kind's branch and no other. |
| RtVim.EncodedLineEditApplies | web/vim_realtime.js:235-257 | On any encoded Vim line edit, `applyLocalEdit` gives exactly the lines `ApplyToLines` defines. Line L means list position L-1, and an append goes to position L. A position outside the list or the line is an exception. |
| RtVim.EditDocumentOfEncoded | web/vim_realtime.js:235-257 | The document-level form of EncodedLineEditApplies. |
| RtVim.ReplaceDocumentOfEncoded | web/vim_realtime.js:235-236 | A replace of line L sets position L-1, or throws when L is out of range. |
| RtVim.AppendDocumentOfEncoded | web/vim_realtime.js:238-245 | An append after line L inserts at position L, or throws when L is out of range. |
| RtVim.RemoveDocumentOfEncoded | web/vim_realtime.js:247-248 | A remove of line L drops position L-1, or throws when L is out of range. |
| RtVim.InsertTextDocumentOfEncoded | web/vim_realtime.js:250-252 | An insert into line L inserts before character `index` of position L-1, or throws when out of range. |
| RtVim.DeleteTextDocumentOfEncoded | web/vim_realtime.js:254-257 | A delete on line L removes the range [index, index + length) of position L-1, or throws when out of range. |
| RtVim.SyncModel | web/vim_realtime.js:355-369 | The copy loop builds the one buffer-sync message for the document and clears needSync. |
| RtVim.SyncMessageDecodes | web/vim_realtime.js:355-369 | The sync message is the model's encoding of a buffer sync of buffer 0 whose lines are the document's lines in order, and the model's decoder accepts it. |
| RtVim.OnCursorChanged | web/vim_realtime.js:376-388 | A local change yields no message, and a remote change yields exactly one. |
| RtVim.CursorMoveStoresPosition | web/vim_realtime.js:222-233 | A Vim cursor move stores "line,column" under the local user's id, posts nothing, and leaves the lines unchanged. |
| RtVim.CursorChangeParsesPosition | web/vim_realtime.js:382-385 | onCursorChanged on a stored "line,column" text builds the cursor move for that user and position. |
| RtVim.CursorRoundTrip | web/vim_realtime.js:233 | A cursor stored from a Vim move is parsed back by the other side into the same user and position. The model's decoder accepts the result whenever the move was well formed. |
| RtVim.OnLineAdded | web/vim_realtime.js:394-419 | The cache is shifted by +n from the index before the local check, and its slots and `oldest` are kept. A remote batch yields the n appends with lines i+k, and a local batch yields none. |
| RtVim.OnLineRemoved | web/vim_realtime.js:425-442 | The cache is shifted by -n from the index before the local check, and its slots and `oldest` are kept. A remote batch yields n removes, all of line i+1, and a local batch yields none. |
| RtVim.AppendMessagesEncode | web/vim_realtime.js:412-417 | The k-th added-line message is the model's encoding of an append of line i+k in buffer 0. The model's decoder gives that append back when the text is valid. |
| RtVim.RemoveMessagesEncode | web/vim_realtime.js:435-440 | Every removed-line message is the model's encoding of a remove of line i+1 in buffer 0, and the model's decoder gives that remove back. |
| RtVim.AddedBatchReplays | web/vim_realtime.js:404-418 | Applying the built appends in order to the earlier list inserts exactly the added values at position i. |
| RtVim.RemovedBatchReplays | web/vim_realtime.js:434-441 | Applying the built removes in order to the earlier list removes exactly positions i to i+n-1. |
| RtVim.OnTextInserted | web/vim_realtime.js:449-463 | A local change yields no lookup and no message, and leaves the cache exactly as it was. A remote change looks the line up through the cache and yields one insert_text with line lnum+1 and the event's index and text. `lnum` is the line's cached index when it is cached, and the cache is then unchanged. An uncached line in the list yields its first position and is cached as IndexOf does: slot `oldest` gets the line, only that slot's old id is evicted, and `oldest` advances modulo the capacity. An absent line yields None and leaves the cache unchanged. The slot array is always the same array. With a coherent cache, `lnum` is a position holding the line. |
| RtVim.OnTextDeleted | web/vim_realtime.js:470-484 | The same as OnTextInserted, including the cache's new state, but with one delete_text whose length is the length of the deleted text. |
| RtVim.InsertTextMessageDecodes | web/vim_realtime.js:454-462 | For a found line p, the message is the model's encoding of an insert into line p+1, which the model's decoder accepts. For a line that was not found, the message carries NaN and the model's decoder rejects it. |
| RtVim.DeleteTextMessageDecodes | web/vim_realtime.js:475-483 | For a found line p, the message is the model's encoding of a delete of the text's length on line p+1, which the model's decoder accepts. For a line that was not found, the model's decoder rejects it. |

## Left out

- **Concurrency and locking.** The pthread mutex, the signal file
  descriptors and the byte writes are not modelled. Each queue operation is
  one atomic step, and the signal count is ghost.
- **Vim's apply step.** The body of `process_collabedits` calls `ml_append`
  and `appended_lines_mark` on fields that `collabedit_T` does not have.
  Only its drain loop is modelled, and it returns the edits it would apply.
  No cursor adjustment appears in the code, and none is modelled.
- **Cursor columns.** `pos_T.coladd` is not modelled; a cursor move carries
  only the line and the column.
- **The queue record.** `collaborate.c` declares a second `editqueue_T` (an
  edit and a next pointer) and keeps the queue in file-level globals. The
  model uses the node layout of `editnode_T`. The parameterised
  `collab_dequeue` of `collab_util.h` is not part of this model.
- **The key code.** The numeric value of `KE_COLLABEDIT` is not in the
  sources, so the three keys are modelled as a datatype.
- **The codec body.** `collabedit_from_ppvar` and `ppvar_from_collabedit`
  are only declared in the sources. `Codec` defines them over the keys of
  `vim_realtime.js`. Memory ownership of the texts is not modelled.
- **The realtime service.** Event-listener registration, `postMessage`,
  `updateUi`, loading and sharing files, and timing across asynchronous
  loads are left out. The handlers return the messages they would post. The
  document is the list of line texts, the cursor map and the collaborators.
- **IndexCache's source list.** The cache holds a reference to the live
  list. The model passes the list's current line ids to `IndexOf`, and line
  identity is id equality.
- **Implicit coercions.** JavaScript coerces a string line number in
  `L - 1`, and a number passed as text. The model counts a missing or
  mistyped field as an exception (`Fault`) instead. The realtime library's
  own checks (an index outside the list or the line) are modelled as
  exceptions too.
- **parseInt input.** Leading whitespace and a "0x" prefix are not modelled.
  Stored cursor texts never contain either.
- **Character counting.** The model counts characters as Dafny `char`
  values (Unicode scalar values). The realtime side counts UTF-16 code
  units: `ev.index` and `ev.text.length` in onTextInserted and
  onTextDeleted, and the positions given to `insertString` and
  `removeRange`. Vim's `colnr_T` counts bytes. On non-ASCII text these
  indices disagree, and the model does not capture that.
- **Number widths.** JavaScript numbers are 64-bit floats, and the C fields
  are `int`, `linenr_T`, `colnr_T` and `size_t`. The model uses unbounded
  integers, so overflow and loss of precision are not modelled.
- **Logging.** The `console.log` of an unrecognised edit type in
  applyLocalEdit is not modelled. Such an edit is consumed with no effect.
- **Buffer identity.** Every message built on the realtime side uses buffer
  id 0, as the code does. Choosing a buffer on the Vim side is not part of
  this model.
- IndexCaches.IndexCache.Insert: requires that the id is not already cached.
  Its one caller, `indexOf`, ensures this. Re-inserting a cached id would
  leave it in two slots.
- IndexCaches.IndexCache.Insert: on a never-written slot, the code evaluates
  `delete indices[undefined]`, which would remove a line whose id is the text
  "undefined". The model removes nothing there, because realtime line ids
  are never that text.
- IndexCaches.IndexCache.constructor: a negative capacity is excluded by the
  type, because JavaScript's `new Array` throws on it.

## Findings

| source | as written | input that shows it | evidently intended | confidence | as-written member | corrected member |
|---|---|---|---|---|---|---|
| vim73/src/collaborate.c:65-66 | `collab_dequeue` frees the head node and then reads its `next` field. | Any dequeue on a non-empty queue | Read `next` before freeing the node | not executed | AsWrittenQueue.DequeueReadsReleasedNode | Collaborate.EditQueue.Dequeue |
| vim73/src/collaborate.c:42-50 | `collab_dequeue` never resets `edittail` when the last node leaves. The next `collab_enqueue` then links onto the released node, and `edithead` stays NULL. If malloc hands back the freed block, line 48 links that node to itself instead, and `edithead` stays NULL all the same. | enqueue e1, dequeue, enqueue e2, dequeue: the second dequeue returns NULL, and e2 is never delivered | Clear the tail when the queue becomes empty, so that the second dequeue returns e2 | not executed | AsWrittenQueue.StaleTailLosesEdit | Collaborate.EditQueue.Dequeue |
