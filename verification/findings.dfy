/**
 * The walk of markdown_delete exactly as written, kept beside the corrected
 * walk (Chunks.DeleteSpan, Markdown.DeleteWalk) to exhibit the discrepancy in
 * its chars_seen accounting: after a chunk is processed, and unlinked when it
 * was left empty, chars_seen advances by the length of the chunk the walk has
 * moved on to, not of the chunk it processed, and after the last chunk that
 * next chunk is NULL.
 */
module Findings {
  import opened Chunks

  /**
   * The walk as written.  `charsSeen` is where the walk believes chunks[0]
   * starts and `toDelete` the characters still to go; None stands for the
   * NULL dereference of `curr->text` once the walk has passed the last chunk.
   */
  function DeleteWalkAsWritten(chunks: seq<string>, pos: nat, charsSeen: nat, toDelete: nat): (r: Option<seq<string>>)
    ensures |chunks| > 0 && toDelete > 0 && r.Some? ==> |chunks| > 1
    ensures |chunks| == 0 || toDelete == 0 ==> r == Some(chunks)
    decreases |chunks|
  {
    if |chunks| == 0 || toDelete == 0 then Some(chunks)
    else
      var c := chunks[0];
      var start := if pos > charsSeen then pos - charsSeen else 0;
      var delLen := DelLen(c, pos, charsSeen, toDelete);
      var text := if charsSeen + |c| > pos then Cut(c, start, delLen) else c;
      if |chunks| == 1 then None
      else
        match DeleteWalkAsWritten(chunks[1..], pos, charsSeen + |chunks[1]|, toDelete - delLen)
        case None => None
        case Some(rest) => Some(Keep(text) + rest)
  }

  /**
   * to_delete when the walk as written arrives at the last chunk, or 0 when
   * it has stopped before.
   */
  function ToDeleteAtLast(chunks: seq<string>, pos: nat, charsSeen: nat, toDelete: nat): nat
    requires |chunks| > 0
    decreases |chunks|
  {
    if |chunks| == 1 || toDelete == 0 then toDelete
    else ToDeleteAtLast(chunks[1..], pos, charsSeen + |chunks[1]|, toDelete - DelLen(chunks[0], pos, charsSeen, toDelete))
  }

  /**
   * The walk as written dereferences NULL exactly when it arrives at the last
   * chunk with characters still to delete: the loop then runs on the last
   * chunk and line 211 reads the text of the NULL chunk after it.
   */
  lemma {:induction false} AsWrittenCrashesIffLastChunkEntered(chunks: seq<string>, pos: nat, charsSeen: nat, toDelete: nat)
    requires |chunks| > 0
    ensures DeleteWalkAsWritten(chunks, pos, charsSeen, toDelete).None? <==> ToDeleteAtLast(chunks, pos, charsSeen, toDelete) > 0
    decreases |chunks|
  {
    if |chunks| > 1 && toDelete > 0 {
      var rest, seen, left := chunks[1..], charsSeen + |chunks[1]|, toDelete - DelLen(chunks[0], pos, charsSeen, toDelete);
      AsWrittenCrashesIffLastChunkEntered(rest, pos, seen, left);
      AsWrittenStep(chunks, pos, charsSeen, toDelete);
      ToDeleteAtLastStep(chunks, pos, charsSeen, toDelete);
    }
  }

  /** to_delete at the last chunk is what the rest of the walk carries there. */
  lemma {:induction false} ToDeleteAtLastStep(chunks: seq<string>, pos: nat, charsSeen: nat, toDelete: nat)
    requires |chunks| > 1 && toDelete > 0
    ensures ToDeleteAtLast(chunks, pos, charsSeen, toDelete)
         == ToDeleteAtLast(chunks[1..], pos, charsSeen + |chunks[1]|,
                           toDelete - DelLen(chunks[0], pos, charsSeen, toDelete))
  {
  }

  /** One iteration of the walk as written: it crashes exactly when the walk on the rest does. */
  lemma {:induction false} AsWrittenStep(chunks: seq<string>, pos: nat, charsSeen: nat, toDelete: nat)
    requires |chunks| > 1 && toDelete > 0
    ensures DeleteWalkAsWritten(chunks, pos, charsSeen, toDelete).None?
        <==> DeleteWalkAsWritten(chunks[1..], pos, charsSeen + |chunks[1]|,
                                 toDelete - DelLen(chunks[0], pos, charsSeen, toDelete)).None?
  {
  }

  /**
   * The walk as written cannot delete more than the chunks before the last
   * one hold, so a walk asked for more characters than the whole list holds
   * always reaches the last chunk and dereferences NULL.
   */
  lemma {:induction false} AsWrittenWalkCrashesOnLongDelete(chunks: seq<string>, pos: nat, charsSeen: nat, toDelete: nat)
    requires |chunks| > 0 && toDelete > |Concat(chunks)|
    ensures DeleteWalkAsWritten(chunks, pos, charsSeen, toDelete).None?
    decreases |chunks|
  {
    if |chunks| > 1 {
      var delLen := DelLen(chunks[0], pos, charsSeen, toDelete);
      ConcatFirst(chunks);
      AsWrittenWalkCrashesOnLongDelete(chunks[1..], pos, charsSeen + |chunks[1]|, toDelete - delLen);
      AsWrittenStep(chunks, pos, charsSeen, toDelete);
    }
  }

  /** As written, a delete of more characters than the staged text holds always crashes. */
  lemma {:induction false} AsWrittenCrashesOnLongDelete(chunks: seq<string>, pos: nat, len: nat)
    requires |chunks| > 0 && len > |Concat(chunks)|
    ensures DeleteAsWritten(chunks, pos, len).None?
  {
    AsWrittenWalkCrashesOnLongDelete(chunks, pos, 0, len);
  }

  /** markdown_delete as written on a staged list (chars_seen starts at 0). */
  function DeleteAsWritten(chunks: seq<string>, pos: nat, len: nat): (r: Option<seq<string>>)
    ensures |chunks| == 1 && len > 0 ==> r.None?
  {
    DeleteWalkAsWritten(chunks, pos, 0, len)
  }

  /**
   * As written, every delete from a one-chunk list dereferences NULL: the
   * walk moves past the only chunk and then reads the length of the next
   * one.  The corrected walk cuts the span out of the chunk.
   */
  lemma {:induction false} AsWrittenCrashesOnLastChunk(c: string, pos: nat, len: nat)
    requires len > 0
    ensures DeleteAsWritten([c], pos, len).None?
    ensures Concat(DeleteSpan([c], pos, len)) == DeleteText(c, pos, len)
  {
    DeleteSpanText([c], pos, len);
    ConcatCons(c, []);
    assert [c] + [] == [c];
    assert Concat([c]) == c;
  }

  /**
   * As written, deleting one character at offset 2 of "abcde", held as
   * "a", "bcd", "e", removes 'b' instead of 'c': after passing "a" the walk
   * believes "bcd" starts at offset 3.
   */
  lemma {:induction false} AsWrittenDeletesWrongCharacter()
    ensures DeleteAsWritten(["a", "bcd", "e"], 2, 1) == Some(["a", "cd", "e"])
    ensures Concat(["a", "cd", "e"]) == "acde"
  {
    assert Cut("bcd", 0, 1) == "cd" by {
      CutShifts("bcd", 0, 1);
    }
    var tail := ["bcd", "e"];
    assert ["a", "bcd", "e"][1..] == tail && tail[1..] == ["e"];
    assert DeleteWalkAsWritten(["e"], 2, 4, 0) == Some(["e"]);
    assert DeleteWalkAsWritten(tail, 2, 3, 1) == Some(Keep("cd") + ["e"]);
    assert Keep("cd") + ["e"] == ["cd", "e"];
    assert DeleteWalkAsWritten(["a", "bcd", "e"], 2, 0, 1) == Some(Keep("a") + ["cd", "e"]);
    assert Keep("a") + ["cd", "e"] == ["a", "cd", "e"];
  }

  /** The corrected walk on the same input removes 'c', giving "abde". */
  lemma {:induction false} CorrectedDeletesRightCharacter()
    ensures Concat(DeleteSpan(["a", "bcd", "e"], 2, 1)) == "abde"
  {
    assert Concat(DeleteSpan(["a", "bcd", "e"], 2, 1)) == DeleteText("abcde", 2, 1) by {
      DeleteSpanText(["a", "bcd", "e"], 2, 1);
      assert Concat(["a", "bcd", "e"]) == "abcde";
    }
    assert DeleteText("abcde", 2, 1) == "abde" by {
      DeleteTextSlices("abcde", 2, 1);
      assert "abcde"[..2] == "ab" && "abcde"[3..] == "de";
    }
  }
}
