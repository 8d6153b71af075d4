/**
 * Client runs of the document engine: the demonstration in markdown.c's
 * main and the insert-then-commit and delete-then-commit sequences the
 * server runs for each editor request.  Each builds its own document, so
 * none changes any state it is given.
 */
module Scenarios {
  import opened Chunks
  import opened Markdown

  /**
   * main: init, insert "Hello" at 0 against version 0, commit, flatten:
   * the text is "Hello" at version 1.
   */
  method HelloDemo() returns (rc: int, flat: string, version: u64)
    ensures rc == SUCCESS && flat == "Hello" && version == 1
  {
    var doc := new Document.Init();
    rc := Insert(doc, 0, 0, Some("Hello"));
    IncrementVersion(doc);
    assert doc.head == ["Hello"] + [];
    ConcatCons("Hello", []);
    flat := Flatten(doc);
    version := doc.version;
  }

  /** A document whose committed text is "Hello" at version 1, nothing staged. */
  method CommittedHello() returns (doc: Document)
    ensures fresh(doc)
    ensures doc.head == ["Hello"] && doc.staged == [] && doc.version == 1
  {
    doc := new Document.Init();
    var rc := Insert(doc, 0, 0, Some("Hello"));
    IncrementVersion(doc);
    assert doc.head == ["Hello"] + [];
  }

  /**
   * The server's insert request: insert " World" at 5 against the current
   * version, then commit.  The insert starts from the empty staged list, not
   * from the committed text, so the new chunk is the whole staged list and
   * the commit puts it in front of "Hello".
   */
  method ServerInsert() returns (rc: int, flat: string, version: u64)
    ensures rc == SUCCESS && flat == " WorldHello" && version == 2
  {
    var doc := CommittedHello();
    rc := Insert(doc, doc.version, 5, Some(" World"));
    assert doc.staged == [" World"];
    IncrementVersion(doc);
    assert doc.head == [" World"] + ["Hello"];
    ConcatCons(" World", ["Hello"]);
    ConcatCons("Hello", []);
    flat := Flatten(doc);
    version := doc.version;
  }

  /**
   * The delete half of the server's delete request: deleting one character
   * at 0 against the current version stages a copy of the committed chunk
   * with its first character cut away; the committed chunk is untouched.
   */
  method StagedDelete() returns (rc: int, doc: Document)
    ensures fresh(doc)
    ensures rc == SUCCESS && doc.staged == ["ello"] && doc.head == ["Hello"] && doc.version == 1
  {
    assert DeleteSpan(["Hello"], 0, 1) == ["ello"] by {
      assert Cut("Hello", 0, 1) == "ello" by {
        CutShifts("Hello", 0, 1);
      }
      assert ["Hello"][1..] == [];
      assert DeleteSpan(["Hello"], 0, 1) == Keep("ello") + DeleteSpan([], 0, 0);
    }
    doc := CommittedHello();
    rc := Delete(doc, doc.version, 0, 1);
  }

  /**
   * The server's delete request: delete one character at 0 against the
   * current version, then commit.  The delete edits a staged copy of the
   * committed chunks, and the commit puts that copy in front of the
   * committed chunks, so the text appears twice.
   */
  method ServerDelete() returns (rc: int, flat: string, version: u64)
    ensures rc == SUCCESS && flat == "elloHello" && version == 2
  {
    var doc;
    rc, doc := StagedDelete();
    IncrementVersion(doc);
    assert doc.head == ["ello"] + ["Hello"];
    ConcatCons("ello", ["Hello"]);
    ConcatCons("Hello", []);
    flat := Flatten(doc);
    version := doc.version;
  }

  /**
   * A submission against a stale version fails and changes nothing the
   * client can read: the text and the version stay as they were.
   */
  method StaleInsert() returns (rc: int, flat: string, version: u64)
    ensures rc == FAILURE && flat == "Hello" && version == 1
  {
    var doc := CommittedHello();
    rc := Insert(doc, 0, 0, Some("x"));
    IncrementVersion(doc);
    ConcatCons("Hello", []);
    flat := Flatten(doc);
    version := doc.version;
  }

  /**
   * Inserting the empty string still stages a chunk, so the commit that
   * follows advances the version though the text is unchanged.
   */
  method EmptyInsert() returns (rc: int, flat: string, version: u64)
    ensures rc == SUCCESS && flat == "" && version == 1
  {
    var doc := new Document.Init();
    rc := Insert(doc, 0, 0, Some(""));
    IncrementVersion(doc);
    assert doc.head == [""] + [];
    ConcatCons("", []);
    flat := Flatten(doc);
    version := doc.version;
  }

  /** A delete on a document with no chunks at all fails, and a commit then changes nothing. */
  method DeleteFromEmpty() returns (rc: int, flat: string, version: u64)
    ensures rc == FAILURE && flat == "" && version == 0
  {
    var doc := new Document.Init();
    rc := Delete(doc, 0, 0, 1);
    IncrementVersion(doc);
    flat := Flatten(doc);
    version := doc.version;
  }

  /**
   * Staged edits are invisible until the commit: an insert and a delete
   * against the current version leave the flattened text as it was.  The
   * delete uses the corrected walk; on the one-chunk staged list here the
   * walk as written would dereference NULL.
   */
  method StagedInvisible() returns (before: string, after: string)
    ensures before == "Hello" && after == "Hello"
  {
    var doc := CommittedHello();
    ConcatCons("Hello", []);
    before := Flatten(doc);
    var rc := Insert(doc, doc.version, 5, Some(" World"));
    rc := Delete(doc, doc.version, 0, 3);
    after := Flatten(doc);
  }
}
