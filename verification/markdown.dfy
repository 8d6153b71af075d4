/**
 * The document of the markdown engine and its edit, commit and read
 * operations.  A document owns two chunk lists: `head`, the committed
 * chunks, and `staged`, the pending chunks that inserts and deletes edit
 * in place; a commit splices the staged chunks in front of the committed
 * ones.  The C functions take a possibly NULL document pointer, so the
 * operations here are methods taking a `Document?`.
 */
module Markdown {
  import opened Chunks

  const U64_LIMIT: int := 0x1_0000_0000_0000_0000

  /** uint64_t */
  type u64 = x: int | 0 <= x < U64_LIMIT

  const SUCCESS: int := 0
  const FAILURE: int := -1

  /** `version++` on a uint64_t: one more, wrapping to 0 past the largest value. */
  function NextVersion(v: u64): (r: u64)
    ensures v < U64_LIMIT - 1 ==> r == v + 1
    ensures v == U64_LIMIT - 1 ==> r == 0
    ensures r != v
  {
    (v + 1) % U64_LIMIT
  }

  class Document {
    /** committed chunks, in order; [] is a NULL head */
    var head: seq<string>
    /** pending chunks, in order; [] is a NULL staged_head */
    var staged: seq<string>
    var version: u64

    /** markdown_init: both lists empty, version 0. */
    constructor Init()
      ensures head == [] && staged == [] && version == 0
    {
      head := [];
      staged := [];
      version := 0;
    }
  }

  /**
   * markdown_insert: fails (-1) for a NULL document, NULL content or a
   * stale version, changing nothing; otherwise copies the content into a
   * new chunk and links it into the staged list only.
   */
  method Insert(doc: Document?, version: u64, pos: nat, content: Option<string>) returns (rc: int)
    modifies doc
    ensures doc == null ==> rc == FAILURE
    ensures doc != null ==>
      (rc == FAILURE <==> content.None? || version != old(doc.version))
    ensures doc != null ==> rc == SUCCESS || rc == FAILURE
    ensures doc != null ==> doc.head == old(doc.head) && doc.version == old(doc.version)
    ensures doc != null && rc == FAILURE ==> doc.staged == old(doc.staged)
    ensures doc != null && rc == SUCCESS ==>
      doc.staged == InsertChunks(old(doc.staged), pos, content.value)
    ensures doc != null && rc == SUCCESS ==>
      var s := Concat(old(doc.staged));
      var p := Min(pos, |s|);
      Concat(doc.staged) == s[..p] + content.value + s[p..]
  {
    if doc == null || content.None? {
      return FAILURE;
    }
    if doc.version != version {
      return FAILURE;
    }
    InsertChunksText(doc.staged, pos, content.value);
    var inserted := StrDup(content.value);

    // insert at the beginning
    if pos == 0 {
      doc.staged := [inserted] + doc.staged;
      return SUCCESS;
    }

    doc.staged := InsertWalk(doc.staged, pos, inserted);
    rc := SUCCESS;
  }

  /**
   * The walk of markdown_insert for pos > 0: chars_seen counts the
   * characters of the chunks passed so far; the first chunk whose end
   * reaches pos is split at offset pos - chars_seen around the inserted
   * chunk, and when the walk runs off the end the inserted chunk becomes
   * the tail (or the whole list, when it was NULL).
   */
  method InsertWalk(chunks: seq<string>, pos: nat, inserted: string) returns (r: seq<string>)
    requires pos > 0
    ensures r == SplitInsert(chunks, pos, inserted)
  {
    // `kept` is the list up to and including `prev`; `rest` starts at `curr`
    var kept: seq<string> := [];
    var rest := chunks;
    var charsSeen := 0;
    while |rest| > 0
      invariant charsSeen < pos
      invariant SplitInsert(chunks, pos, inserted) == kept + SplitInsert(rest, pos - charsSeen, inserted)
      decreases |rest|
    {
      var text := rest[0];
      var currLen := |text|;
      if charsSeen + currLen >= pos {
        // split the chunk in the middle
        var offset := pos - charsSeen;
        var before := StrNDup(text, offset);
        var after := StrDup(text[offset..]);
        SplitInsertHere(rest, offset, inserted);
        return kept + ([before, inserted, after] + rest[1..]);
      }
      SplitInsertPast(rest, pos - charsSeen, inserted);
      Regroup(SplitInsert(chunks, pos, inserted), kept, SplitInsert(rest, pos - charsSeen, inserted),
              [text], SplitInsert(rest[1..], pos - charsSeen - currLen, inserted), kept + [text]);
      kept := kept + [text];
      charsSeen := charsSeen + currLen;
      rest := rest[1..];
    }

    // no chunk reaches pos: the new chunk becomes the tail
    r := kept + [inserted];
  }

  /**
   * The staged list a delete starts from: the staged chunks, or a deep copy
   * of the committed chunks when nothing is staged yet.
   */
  function DeleteBase(head: seq<string>, staged: seq<string>): (r: seq<string>)
    ensures staged != [] ==> r == staged
    ensures staged == [] ==> r == head
  {
    if staged == [] then DeepCopyChunks(head) else staged
  }

  /**
   * markdown_delete, with the chars_seen accounting of the walk corrected
   * to advance by the length of the chunk just processed: fails (-1) for a
   * NULL document, a stale version or len == 0, and when nothing is staged
   * and the committed list is empty; otherwise cuts [pos, pos + len),
   * clamped at the end, out of the staged text.
   */
  method Delete(doc: Document?, version: u64, pos: nat, len: nat) returns (rc: int)
    modifies doc
    ensures doc == null ==> rc == FAILURE
    ensures doc != null ==>
      (rc == FAILURE <==>
         version != old(doc.version) || len == 0 || (old(doc.staged) == [] && old(doc.head) == []))
    ensures doc != null ==> rc == SUCCESS || rc == FAILURE
    ensures doc != null ==> doc.head == old(doc.head) && doc.version == old(doc.version)
    ensures doc != null && rc == FAILURE ==> doc.staged == old(doc.staged)
    ensures doc != null && rc == SUCCESS ==>
      doc.staged == DeleteSpan(DeleteBase(old(doc.head), old(doc.staged)), pos, len)
    ensures doc != null && rc == SUCCESS ==>
      Concat(doc.staged) == DeleteText(Concat(DeleteBase(old(doc.head), old(doc.staged))), pos, len)
    ensures doc != null && rc == SUCCESS ==>
      var s := Concat(DeleteBase(old(doc.head), old(doc.staged)));
      Concat(doc.staged) == s[..Min(pos, |s|)] + s[Min(pos + len, |s|)..]
  {
    if doc == null || doc.version != version || len == 0 {
      return FAILURE;
    }

    // make a staged copy if none exists
    if doc.staged == [] {
      doc.staged := DeepCopyChunks(doc.head);
      if doc.staged == [] {
        return FAILURE;
      }
    }

    DeleteSpanText(doc.staged, pos, len);
    DeleteTextSlices(Concat(doc.staged), pos, len);
    doc.staged := DeleteWalk(doc.staged, pos, len);
    rc := SUCCESS;
  }

  /**
   * The walk of markdown_delete over the staged chunks: while characters
   * remain to delete, each chunk reaching past pos loses
   * min(to_delete, what it holds past the start offset) characters, every
   * chunk visited and left empty is unlinked, and chars_seen advances by the
   * length of the chunk just processed.
   */
  method DeleteWalk(chunks: seq<string>, pos: nat, len: nat) returns (r: seq<string>)
    ensures r == DeleteSpan(chunks, pos, len)
  {
    // `kept` is the list up to and including `prev`; `rest` starts at `curr`
    var kept: seq<string> := [];
    var rest := chunks;
    var charsSeen: nat := 0;
    var toDelete: nat := len;
    while |rest| > 0 && toDelete > 0
      invariant DeleteSpan(chunks, pos, len)
             == kept + DeleteSpan(rest, Rel(pos, charsSeen), toDelete)
      decreases |rest|
    {
      var text := rest[0];
      var currLen := |text|;
      ghost var here := DeleteSpan(rest, Rel(pos, charsSeen), toDelete);

      // the span starts in this chunk or has already started
      if charsSeen + currLen > pos {
        var start := if pos > charsSeen then pos - charsSeen else 0;
        var delLen := DelLen(text, pos, charsSeen, toDelete);
        DeleteSpanCut(rest, pos, charsSeen, toDelete, start, delLen);
        text := Cut(text, start, delLen);
        toDelete := toDelete - delLen;
      } else {
        DeleteSpanPass(rest, pos, charsSeen, toDelete);
      }

      // a chunk left empty is unlinked; otherwise it becomes `prev`
      ghost var before := kept;
      if |text| != 0 {
        kept := kept + [text];
      } else {
        assert kept + Keep(text) == kept;
      }
      charsSeen := charsSeen + currLen;
      rest := rest[1..];
      Regroup(DeleteSpan(chunks, pos, len), before, here, Keep(text),
              DeleteSpan(rest, Rel(pos, charsSeen), toDelete), kept);
    }
    if toDelete == 0 {
      assert DeleteSpan(rest, Rel(pos, charsSeen), toDelete) == rest;
    }
    r := kept + rest;
  }

  /**
   * markdown_increment_version: with nothing staged, nothing changes;
   * otherwise the staged chunks are spliced in front of the committed ones,
   * the staged list becomes empty and the version advances by one.
   */
  method IncrementVersion(doc: Document?)
    modifies doc
    ensures doc != null && old(doc.staged) == [] ==>
      doc.head == old(doc.head) && doc.staged == [] && doc.version == old(doc.version)
    ensures doc != null && old(doc.staged) != [] ==>
      doc.head == old(doc.staged) + old(doc.head) && doc.staged == [] &&
      doc.version == NextVersion(old(doc.version))
    ensures doc != null ==> Concat(doc.head) == Concat(old(doc.staged)) + Concat(old(doc.head))
  {
    if doc == null || doc.staged == [] {
      return;
    }
    ConcatAppend(doc.staged, doc.head);
    doc.head := doc.staged + doc.head;
    doc.staged := [];
    doc.version := NextVersion(doc.version);
  }

  /**
   * markdown_flatten: the committed chunks concatenated in order ("" for a
   * NULL document or an empty committed list); staged chunks are not read
   * and nothing is changed.
   */
  method Flatten(doc: Document?) returns (r: string)
    ensures doc == null ==> r == ""
    ensures doc != null ==> r == Concat(doc.head)
  {
    if doc == null || doc.head == [] {
      return "";
    }

    // first pass: the total length, the size of the result buffer
    var totalLen := 0;
    var i := 0;
    while i < |doc.head|
      invariant i <= |doc.head|
      invariant totalLen == |Concat(doc.head[..i])|
    {
      ConcatAppend(doc.head[..i], [doc.head[i]]);
      assert doc.head[..i + 1] == doc.head[..i] + [doc.head[i]];
      totalLen := totalLen + |doc.head[i]|;
      i := i + 1;
    }

    // second pass: append every chunk's text
    r := "";
    i := 0;
    while i < |doc.head|
      invariant i <= |doc.head|
      invariant r == Concat(doc.head[..i])
    {
      ConcatAppend(doc.head[..i], [doc.head[i]]);
      assert doc.head[..i + 1] == doc.head[..i] + [doc.head[i]];
      r := r + doc.head[i];
      i := i + 1;
    }
    assert doc.head[..i] == doc.head;
    assert |r| == totalLen;
  }
}
