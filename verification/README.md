# Chunk-list document engine

A model of the document engine of a small collaborative markdown editor. The
engine lives in `source/markdown.c`. A document (`libs/ipc.h:44-48`) owns two
singly linked lists of heap-allocated text chunks and a `uint64_t` version:

- `head` holds the committed chunks;
- `staged_head` holds the pending chunks that inserts and deletes edit.

`markdown_insert` and `markdown_delete` edit only the staged list.
`markdown_increment_version` (the commit) splices the staged list in front of
the committed one and bumps the version. `markdown_flatten` concatenates the
committed chunks.

In the model a chunk list is a `seq<string>`, and the empty sequence stands
for a NULL list. `Chunks.Concat` is the text a list holds.

- `chunks.dfy` (module `Chunks`) holds the pure part:
  - the string copies `strdup_safe` and `strndup_safe`, and `deep_copy_chunks`;
  - the chunk list a successful insert produces (`SplitInsert`, `InsertChunks`);
  - the chunk list the delete walk produces (`DeleteSpan`);
  - a reference deletion on plain text (`DeleteText`);
  - the lemmas that tie each chunk-level operation to the flat text.
- `markdown.dfy` (module `Markdown`) holds the imperative part:
  - the `Document` class, with fields `head`, `staged` and `version`;
  - the insert, delete, commit and flatten operations as methods with the
    source's `while` walks, each proved against the functions of `Chunks`.

  The C functions accept a NULL document and fail or do nothing on it. The
  operations are therefore module-level methods taking a `Document?`, so the
  NULL paths are modelled too.
- `scenarios.dfy` (module `Scenarios`) holds whole runs:
  - the demonstration in `main`;
  - the insert-then-commit and delete-then-commit pairs that the server runs
    for every insert and delete request (`source/server.c:74-80`).
- `findings.dfy` (module `Findings`) holds the delete walk exactly as written,
  beside the corrected one (see Findings).

The model follows the code, not an idealised editor, and shows the results as
whole runs:

- **Insert never reads the committed text.** It works on `staged_head` alone,
  and a commit puts the staged chunks in front of the committed ones. With the
  server's edit-then-commit usage, inserting " World" at 5 into "Hello" gives
  " WorldHello" (`Scenarios.ServerInsert`).
- **Delete works on a full copy of the committed chunks.** When nothing is
  staged, delete copies the committed list into the staged list. The commit
  then keeps the old committed list behind the edited copy, so with the
  corrected delete walk, deleting the first character of "Hello" gives
  "elloHello" (`Scenarios.ServerDelete`). The code as written never gets that
  far on this input: the staged copy is a single chunk, and the delete walk
  dereferences NULL after it (see Findings).
- **Commit tests for a staged chunk, not for staged text.** Inserting "" still
  stages a chunk, so the commit advances the version (`Scenarios.EmptyInsert`).
- **There is no deferred queue.** An edit takes effect on the staged list at
  once. A commit prepends the staged chunks and does not replace the committed
  content. The edit-queue type in `libs/ipc.h` is declared but never used.

## Model

| member | source | states |
|---|---|---|
| Markdown.Document.Init | source/markdown.c:10-19 | a new document has both chunk lists empty (NULL) and version 0 |
| Chunks.StrNDup | source/markdown.c:54-61 | the copy is the prefix of `s` of length min(n, strlen(s)), and the whole of `s` when n >= strlen(s) |
| Chunks.StrDup | source/markdown.c:45-52 | the copy equals the original string |
| Chunks.DeepCopyChunks | source/markdown.c:142-152 | the copied list holds the same texts in the same order; NULL copies to NULL; so a freshly staged copy has the committed text |
| Markdown.Insert | source/markdown.c:65-137 | fails (-1) exactly for a NULL document, NULL content or a stale version, and then changes nothing; on success `head` and `version` are unchanged and the staged list becomes `InsertChunks` of the old one, whose text is s[..p] + content + s[p..] for s the old staged text and p = min(pos, len(s)) |
| Markdown.InsertWalk | source/markdown.c:91-134 | the `chars_seen` walk yields `SplitInsert`: it splits the first chunk whose cumulative length reaches pos around the new chunk, or appends the new chunk at the tail (as the whole list when it was NULL) |
| Chunks.SplitInsertText | source/markdown.c:91-134 | for pos > 0, the text after the split or tail append is s[..p] + content + s[p..] with p = min(pos, len(s)) |
| Chunks.InsertChunksText | source/markdown.c:84-136 | for every pos, including 0 (prepend) and pos past the end (append), the staged text becomes s[..p] + content + s[p..] |
| Markdown.DeleteBase | source/markdown.c:158-162 | delete edits the staged list if there is one, and otherwise a copy of the committed list |
| Markdown.Delete | source/markdown.c:155-215 | fails (-1) exactly for a NULL document, a stale version, len == 0, or nothing staged with an empty committed list; a failure leaves the staged list as it was; `head` and `version` are never changed; on success the staged list is `DeleteSpan` of the base, and its text is s[..min(pos, len(s))] + s[min(pos + len, len(s))..] |
| Markdown.DeleteWalk | source/markdown.c:164-212 | the `chars_seen`/`to_delete` walk, with `chars_seen` advancing by the processed chunk's length, yields `DeleteSpan` of the staged chunks |
| Chunks.DelLen | source/markdown.c:184-187 | del_len of one iteration, shared by the corrected and the as-written walk: it never exceeds to_delete or the chunk's length |
| Chunks.Cut | source/markdown.c:184-192 | the memmove removes exactly k characters from a chunk, where k never exceeds what the chunk holds past the start offset |
| Chunks.CutShifts | source/markdown.c:189-190 | after the memmove the chunk is its text before `start` followed by its text from `start + del_len` |
| Chunks.ConcatKeep | source/markdown.c:195-209 | unlinking a chunk left empty loses no text and leaves no empty chunk: the kept chunk followed by any list has the chunk's text followed by that list's text, and the kept list has no empty chunk and at most one chunk |
| Chunks.DeleteSpanCut | source/markdown.c:183-193 | one step of the walk on a chunk reaching past pos: the chunk loses min(to_delete, curr_len - start) characters, it is unlinked when left empty, and the walk goes on with to_delete reduced by that amount |
| Chunks.DeleteSpanPass | source/markdown.c:195-209 | one step of the walk on a chunk ending at or before pos: the chunk is kept, or unlinked when it is empty, and the walk goes on with to_delete unchanged |
| Chunks.DeleteTextSlices | source/markdown.c:164-212 | the reference deletion keeps the text before min(pos, len(s)) and the text from min(pos + n, len(s)) |
| Chunks.DeleteTextPass | source/markdown.c:184 | deleting from c + t where the span starts past c keeps c in front |
| Chunks.DeleteTextCut | source/markdown.c:184-192 | deleting from c + t where the span starts inside c takes k = min(n, len(c) - pos) characters from c and the remaining n - k from the front of t |
| Chunks.DeleteSpanText | source/markdown.c:164-212 | the chunk-level delete has the text effect of the reference deletion of [pos, pos + n) from the concatenated text |
| Chunks.DeleteSpanRemoves | source/markdown.c:164-212 | the staged text s becomes s[..min(pos, len(s))] + s[min(pos + n, len(s))..]; at most n characters go, exactly min(n, len(s) - pos) when pos < len(s), and none when pos >= len(s) |
| Chunks.DeleteSpanUnlinksVisited | source/markdown.c:164-212 | for every staged list: the result is a list with no empty chunk (the visited chunks, rewritten, with those left empty unlinked) followed, unchanged, by the chunks after the point where to_delete reached 0 |
| Chunks.DeleteSpanNoEmpty | source/markdown.c:195-209 | in particular, a list without empty chunks keeps none |
| Chunks.DeleteSpanLength | source/markdown.c:195-209 | the walk never adds chunks |
| Chunks.ConcatAppend | source/markdown.c:315-316 | linking a list's tail to another list concatenates their texts |
| Markdown.NextVersion | source/markdown.c:306 | `version++` on a uint64_t adds one, wrapping to 0 past the largest value, and never yields the old version |
| Markdown.IncrementVersion | source/markdown.c:296-319 | with nothing staged nothing changes; otherwise the committed list becomes the staged chunks followed by the old committed chunks, the staged list becomes empty, and the version advances by one (mod 2^64); the committed text becomes the staged text followed by the old committed text |
| Markdown.Flatten | source/markdown.c:274-293 | returns the in-order concatenation of the committed chunks, or "" for a NULL document or empty list; staged chunks are not read and nothing is changed |
| Scenarios.HelloDemo | source/markdown.c:322-331 | init, insert "Hello" at 0 against version 0, commit and flatten give SUCCESS, "Hello" and version 1 |
| Scenarios.CommittedHello | source/markdown.c:322-325 | the same run up to the commit leaves committed ["Hello"], nothing staged, version 1 |
| Scenarios.ServerInsert | source/server.c:74-76 | the server's insert of " World" at 5 into committed "Hello", then commit, gives " WorldHello" at version 2 |
| Scenarios.StagedDelete | source/markdown.c:155-212 | with the corrected delete walk, deleting one character at 0 from committed "Hello" stages ["ello"] and leaves the committed chunk and the version alone (the code as written dereferences NULL on this input, see Findings) |
| Scenarios.ServerDelete | source/server.c:77-79 | with the corrected delete walk, the server's delete of one character at 0 from committed "Hello", then commit, gives "elloHello" at version 2 (the code as written dereferences NULL on this input, see Findings) |
| Scenarios.StaleInsert | source/markdown.c:69-71 | an insert against a stale version fails, and the following commit leaves text "Hello" and version 1 |
| Scenarios.EmptyInsert | source/markdown.c:296-306 | staging "" creates a chunk, so the commit advances the version to 1 while the text stays "" |
| Scenarios.DeleteFromEmpty | source/markdown.c:159-161 | a delete on a fresh document fails (nothing to copy), and the commit then leaves "" at version 0 |
| Scenarios.StagedInvisible | source/markdown.c:274-293 | staged inserts and deletes (the delete with the corrected delete walk; the code as written dereferences NULL on this one-chunk staged list, see Findings) do not show in the flattened text before a commit |
| Findings.DeleteWalkAsWritten | source/markdown.c:164-212 | the walk as written, with None for the NULL dereference at line 211: a walk with nothing left to delete returns its list, and a walk started on a one-chunk list with characters to delete never returns a list |
| Findings.AsWrittenCrashesIffLastChunkEntered | source/markdown.c:169-211 | for every list, the walk as written dereferences NULL exactly when it arrives at the last chunk with to_delete > 0 |
| Findings.AsWrittenWalkCrashesOnLongDelete | source/markdown.c:169-211 | a walk as written asked for more characters than its chunks hold always dereferences NULL |
| Findings.AsWrittenCrashesOnLongDelete | source/markdown.c:155-215 | as written, every delete of more characters than the staged text holds dereferences NULL |
| Findings.DeleteAsWritten | source/markdown.c:155-215 | as written, every delete of len > 0 from a one-chunk staged list dereferences NULL |
| Findings.AsWrittenCrashesOnLastChunk | source/markdown.c:205-211 | as written, a one-chunk delete crashes, while the corrected delete removes the span from the chunk |
| Findings.AsWrittenDeletesWrongCharacter | source/markdown.c:207-211 | as written, deleting offset 2 of "abcde" held as "a", "bcd", "e" yields "acde" |
| Findings.CorrectedDeletesRightCharacter | source/markdown.c:164-212 | the corrected walk on the same input yields "abde" |

## Left out

- Server and client processes are not part of this model: the named-pipe IPC, process lifecycle, `atoi` argument parsing and the 4096-byte responses are I/O plumbing.
- The formatting commands and `markdown_print` (`source/markdown.c:219-272`) ignore their arguments and return success; they are not modelled.
- The edit-queue type in `libs/ipc.h:27-35` is used by no shown code, so there is no queue to model. `libs/document.h` is an unused duplicate of the structs and is not part of this model.
- Memory management is not modelled: `markdown_free`, leaks, and every allocation failure. This includes insert's path at `source/markdown.c:104-111`, which truncates the split chunk before an allocation that may fail. Allocation is treated as infallible.
- Chunks with a NULL text (`source/markdown.c:170-180`) cannot be built by the modelled operations and are not represented.
- Pointer identity and in-place relinking are not modelled. Each list is a value. Relinking `next` pointers, the tail walks at `source/markdown.c:125-128` and `311-313`, and the in-place `memmove` are all stated as their effect on the sequence. Aliasing between the two lists cannot occur in the source either, since delete deep-copies.
- `size_t` arithmetic is taken as unbounded. Sums of chunk lengths do not overflow at any realistic size. Texts contain no embedded NUL, so `strlen` is the length of the sequence.
- `markdown_flatten` returning NULL when the result buffer cannot be allocated is not modelled, in line with infallible allocation.
- Markdown.Delete: the walk uses the corrected `chars_seen` accounting, not the code at `source/markdown.c:211` as written. The code as written is in `Findings` (see below).
- Markdown.DeleteWalk: models the corrected walk, for the same reason as Markdown.Delete.

## Findings

| source | as written | input that shows it | evidently intended | confidence | as-written member | corrected member |
|---|---|---|---|---|---|---|
| source/markdown.c:211 | the update of `chars_seen` runs after `curr` has moved on, so it adds the length of the next chunk. When the processed chunk was the last one, that next chunk is NULL and its text is read. | any delete with len > 0 on a one-chunk staged list (for example deleting 1 character at 0 from "Hello" held as one chunk) dereferences NULL; deleting 1 character at 2 from "a","bcd","e" removes 'b' and gives "acde" | `chars_seen` advances by the length of the chunk just processed, so the span [pos, pos+len) is removed: "abde" | not executed | Findings.AsWrittenCrashesOnLastChunk | Chunks.DeleteSpanText |
