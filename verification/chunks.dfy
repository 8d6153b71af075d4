/**
 * Value-level view of the chunk lists of the markdown document engine.
 *
 * A chunk list (a NULL-terminated singly linked list of owned C strings) is
 * a `seq<string>`; the empty sequence stands for the NULL list.  A C string
 * is modelled by the characters before its terminator, so `strlen(t)` is
 * `|t|`.  Everything here is a pure function of its inputs; the document
 * methods in module Markdown are proved against these definitions.
 */
module Chunks {

  datatype Option<T> = None | Some(value: T)

  function Min(a: nat, b: nat): nat { if a <= b then a else b }

  // Sequence facts proved once for any element type, so that using them on
  // lists of strings does not make the verifier look inside the strings.

  lemma {:induction false} AppendAssoc<T>(a: seq<T>, b: seq<T>, c: seq<T>)
    ensures a + (b + c) == (a + b) + c
  {
  }

  lemma {:induction false} SplitAt<T>(a: seq<T>, b: seq<T>, m: nat)
    requires m <= |b|
    ensures (a + b)[..|a| + m] == a + b[..m]
    ensures (a + b)[|a| + m..] == b[m..]
  {
  }

  lemma {:induction false} ConsParts<T>(x: T, s: seq<T>)
    ensures ([x] + s)[0] == x && ([x] + s)[1..] == s
  {
  }

  lemma {:induction false} Regroup<T>(whole: seq<T>, a: seq<T>, here: seq<T>, b: seq<T>, later: seq<T>, next: seq<T>)
    requires whole == a + here && here == b + later && next == a + b
    ensures whole == next + later
  {
    AppendAssoc(a, b, later);
  }

  // ---------------------------------------------------------------------
  // The text of a chunk list
  // ---------------------------------------------------------------------

  /** The text a chunk list stands for: its chunks concatenated in order. */
  ghost function Concat(chunks: seq<string>): string
  {
    if |chunks| == 0 then "" else chunks[0] + Concat(chunks[1..])
  }

  lemma {:induction false} ConcatCons(c: string, rest: seq<string>)
    ensures Concat([c] + rest) == c + Concat(rest)
  {
    ConsParts(c, rest);
  }

  lemma {:induction false} ConcatAppend(a: seq<string>, b: seq<string>)
    ensures Concat(a + b) == Concat(a) + Concat(b)
    decreases |a|
  {
    if |a| == 0 {
      assert a + b == b;
    } else {
      AppendAssoc([a[0]], a[1..], b);
      assert a == [a[0]] + a[1..];
      ConcatCons(a[0], a[1..] + b);
      ConcatCons(a[0], a[1..]);
      ConcatAppend(a[1..], b);
    }
  }

  lemma {:induction false} ConcatThree(x: string, y: string, z: string)
    ensures Concat([x, y, z]) == x + y + z
  {
    assert [x, y, z] == [x] + ([y] + [z]);
    ConcatCons(x, [y] + [z]);
    ConcatCons(y, [z]);
    ConcatCons(z, []);
  }

  // ---------------------------------------------------------------------
  // String copies: strndup_safe and strdup_safe
  // ---------------------------------------------------------------------

  /**
   * strndup_safe(s, n): strncpy copies at most n characters and stops at the
   * terminator, then the copy is terminated at index n, so the copy is the
   * first min(n, strlen(s)) characters of s.
   */
  function StrNDup(s: string, n: nat): (r: string)
    ensures |r| == Min(n, |s|)
    ensures r == s[..|r|]
    ensures n >= |s| ==> r == s
  {
    s[..Min(n, |s|)]
  }

  /** strdup_safe(s): a copy of the whole string, i.e. a copy of strlen(s) characters. */
  function StrDup(s: string): (r: string)
    ensures r == s
  {
    StrNDup(s, |s|)
  }

  // ---------------------------------------------------------------------
  // deep_copy_chunks
  // ---------------------------------------------------------------------

  /**
   * deep_copy_chunks: structural recursion that duplicates every chunk's
   * text; the copy holds the same texts in the same order (NULL for NULL).
   */
  function DeepCopyChunks(chunks: seq<string>): (r: seq<string>)
    ensures r == chunks
  {
    if |chunks| == 0 then [] else [StrDup(chunks[0])] + DeepCopyChunks(chunks[1..])
  }

  // ---------------------------------------------------------------------
  // Insert: splitting a chunk
  // ---------------------------------------------------------------------

  /**
   * The staged list after markdown_insert for pos > 0: the walk stops at the
   * first chunk whose cumulative length reaches pos and splits it into the
   * part before the offset, the inserted chunk, and the part after it (which
   * may be empty); when no chunk reaches pos the inserted chunk goes at the
   * tail.  pos is relative to the start of `chunks`.
   */
  function SplitInsert(chunks: seq<string>, pos: nat, content: string): seq<string>
    requires pos > 0
    decreases |chunks|
  {
    if |chunks| == 0 then [content]
    else if pos <= |chunks[0]| then
      [StrNDup(chunks[0], pos), content, StrDup(chunks[0][pos..])] + chunks[1..]
    else
      [chunks[0]] + SplitInsert(chunks[1..], pos - |chunks[0]|, content)
  }

  /** The staged list after a successful markdown_insert: pos 0 prepends the new chunk. */
  function InsertChunks(chunks: seq<string>, pos: nat, content: string): seq<string>
  {
    if pos == 0 then [content] + chunks else SplitInsert(chunks, pos, content)
  }

  lemma {:induction false} SplitInsertText(chunks: seq<string>, pos: nat, content: string)
    requires pos > 0
    ensures var s := Concat(chunks);
            var p := Min(pos, |s|);
            Concat(SplitInsert(chunks, pos, content)) == s[..p] + content + s[p..]
    decreases |chunks|
  {
    if |chunks| == 0 {
      ConcatCons(content, []);
    } else {
      var c, rest := chunks[0], chunks[1..];
      ConsParts(c, rest);
      assert chunks == [c] + rest;
      ConcatCons(c, rest);
      if pos <= |c| {
        var three := [StrNDup(c, pos), content, StrDup(c[pos..])];
        ConcatAppend(three, rest);
        ConcatThree(StrNDup(c, pos), content, StrDup(c[pos..]));
        SplitJoin(c, Concat(rest), pos, content);
      } else {
        var later := SplitInsert(rest, pos - |c|, content);
        SplitInsertText(rest, pos - |c|, content);
        ConcatCons(c, later);
        SkipSplitJoin(c, Concat(rest), pos, content);
      }
    }
  }

  /** The first chunk holds pos: it is split around the new chunk. */
  lemma {:induction false} SplitInsertHere(chunks: seq<string>, pos: nat, content: string)
    requires |chunks| > 0 && 0 < pos <= |chunks[0]|
    ensures SplitInsert(chunks, pos, content)
         == [StrNDup(chunks[0], pos), content, StrDup(chunks[0][pos..])] + chunks[1..]
  {
  }

  /** The first chunk ends before pos: it is kept and the walk goes on past it. */
  lemma {:induction false} SplitInsertPast(chunks: seq<string>, pos: nat, content: string)
    requires |chunks| > 0 && pos > |chunks[0]|
    ensures SplitInsert(chunks, pos, content)
         == [chunks[0]] + SplitInsert(chunks[1..], pos - |chunks[0]|, content)
  {
  }

  /** The string identity behind the split of the chunk where pos falls. */
  lemma {:induction false} SplitJoin(c: string, t: string, pos: nat, content: string)
    requires 0 < pos <= |c|
    ensures c[..pos] + content + c[pos..] + t
         == (c + t)[..Min(pos, |c + t|)] + content + (c + t)[Min(pos, |c + t|)..]
  {
    var s := c + t;
    assert Min(pos, |s|) == pos;
    assert s[..pos] == c[..pos];
    assert s[pos..] == c[pos..] + t;
  }

  /** The string identity behind passing a chunk that ends before pos. */
  lemma {:induction false} SkipSplitJoin(c: string, t: string, pos: nat, content: string)
    requires |c| < pos
    ensures var q := Min(pos - |c|, |t|);
            c + (t[..q] + content + t[q..])
              == (c + t)[..Min(pos, |c + t|)] + content + (c + t)[Min(pos, |c + t|)..]
  {
    var s := c + t;
    var q := Min(pos - |c|, |t|);
    assert Min(pos, |s|) == |c| + q;
    assert s[..|c| + q] == c + t[..q];
    assert s[|c| + q..] == t[q..];
  }

  /**
   * Insert's effect on the staged text: with s the staged text and
   * p = min(pos, |s|), the new text is s[..p] + content + s[p..].
   */
  lemma {:induction false} InsertChunksText(chunks: seq<string>, pos: nat, content: string)
    ensures var s := Concat(chunks);
            var p := Min(pos, |s|);
            Concat(InsertChunks(chunks, pos, content)) == s[..p] + content + s[p..]
  {
    if pos == 0 {
      ConcatCons(content, chunks);
    } else {
      SplitInsertText(chunks, pos, content);
    }
  }

  // ---------------------------------------------------------------------
  // Delete: cutting a span out of the chunks
  // ---------------------------------------------------------------------

  /**
   * Reference definition of deleting from a text, one character at a time:
   * the characters at positions pos .. pos + n - 1 that exist are removed
   * and every other character is kept, in order.
   */
  function DeleteText(s: string, pos: nat, n: nat): string
    decreases |s|
  {
    if |s| == 0 || n == 0 then s
    else if pos > 0 then [s[0]] + DeleteText(s[1..], pos - 1, n)
    else DeleteText(s[1..], 0, n - 1)
  }

  /**
   * The reference deletion as slices: the text before pos, then the text
   * from pos + n, both clamped at the end of s.
   */
  lemma {:induction false} DeleteTextSlices(s: string, pos: nat, n: nat)
    ensures DeleteText(s, pos, n) == s[..Min(pos, |s|)] + s[Min(pos + n, |s|)..]
    decreases |s|
  {
    if |s| == 0 || n == 0 {
      assert s[..Min(pos, |s|)] + s[Min(pos + n, |s|)..] == s;
    } else if pos > 0 {
      DeleteTextSlices(s[1..], pos - 1, n);
      SlicesKeepFirst(s, pos, n);
    } else {
      DeleteTextSlices(s[1..], 0, n - 1);
      SlicesDropFirst(s, n);
    }
  }

  /** The step of DeleteTextSlices where the first character is kept. */
  lemma {:induction false} SlicesKeepFirst(s: string, pos: nat, n: nat)
    requires |s| > 0 && n > 0 && pos > 0
    requires DeleteText(s[1..], pos - 1, n)
          == s[1..][..Min(pos - 1, |s| - 1)] + s[1..][Min(pos - 1 + n, |s| - 1)..]
    ensures DeleteText(s, pos, n) == s[..Min(pos, |s|)] + s[Min(pos + n, |s|)..]
  {
    var a, b := Min(pos, |s|), Min(pos + n, |s|);
    assert Min(pos - 1, |s| - 1) == a - 1 && Min(pos - 1 + n, |s| - 1) == b - 1;
    TakeFirst(s, a);
    DropFirst(s, b);
    AppendAssoc([s[0]], s[1..][..a - 1], s[1..][b - 1..]);
  }

  /** The step of DeleteTextSlices where the first character is deleted. */
  lemma {:induction false} SlicesDropFirst(s: string, n: nat)
    requires |s| > 0 && n > 0
    requires DeleteText(s[1..], 0, n - 1) == s[1..][..0] + s[1..][Min(n - 1, |s| - 1)..]
    ensures DeleteText(s, 0, n) == s[..0] + s[Min(n, |s|)..]
  {
    var b := Min(n, |s|);
    assert Min(n - 1, |s| - 1) == b - 1;
    DropFirst(s, b);
  }

  lemma {:induction false} TakeFirst<T>(s: seq<T>, a: nat)
    requires 0 < a <= |s|
    ensures s[..a] == [s[0]] + s[1..][..a - 1]
  {
  }

  lemma {:induction false} DropFirst<T>(s: seq<T>, b: nat)
    requires 0 < b <= |s|
    ensures s[b..] == s[1..][b - 1..]
  {
  }

  /** Deleting from c + t where the span starts past c leaves c in front. */
  lemma {:induction false} DeleteTextPass(c: string, t: string, pos: nat, n: nat)
    requires |c| <= pos
    ensures DeleteText(c + t, pos, n) == c + DeleteText(t, pos - |c|, n)
    decreases |c|
  {
    if |c| == 0 {
      assert c + t == t;
    } else if n == 0 {
    } else {
      assert (c + t)[0] == c[0] && (c + t)[1..] == c[1..] + t;
      DeleteTextPass(c[1..], t, pos - 1, n);
      assert c == [c[0]] + c[1..];
      AppendAssoc([c[0]], c[1..], DeleteText(t, pos - |c|, n));
    }
  }

  /**
   * Deleting from c + t where the span starts inside c: c loses
   * k = min(n, |c| - pos) characters from pos and t loses the n - k
   * characters left at its front.
   */
  lemma {:induction false} DeleteTextCut(c: string, t: string, pos: nat, n: nat)
    requires pos < |c|
    ensures var k := Min(n, |c| - pos);
            DeleteText(c + t, pos, n) == DeleteText(c, pos, k) + DeleteText(t, 0, n - k)
    decreases |c|
  {
    var k := Min(n, |c| - pos);
    if n == 0 {
    } else {
      assert (c + t)[0] == c[0] && (c + t)[1..] == c[1..] + t;
      if pos > 0 {
        DeleteTextCut(c[1..], t, pos - 1, n);
        AppendAssoc([c[0]], DeleteText(c[1..], pos - 1, k), DeleteText(t, 0, n - k));
      } else if |c| == 1 {
        assert c[1..] + t == t;
      } else {
        DeleteTextCut(c[1..], t, 0, n - 1);
      }
    }
  }

  /**
   * The memmove of markdown_delete: the k characters from `start` are removed
   * and the tail of the chunk shifts left.  `start + k <= |c|` is the bound the
   * source keeps by taking at most what the chunk holds past `start`.
   */
  function Cut(c: string, start: nat, k: nat): (r: string)
    requires start + k <= |c|
    ensures |r| == |c| - k
  {
    DeleteTextSlices(c, start, k);
    DeleteText(c, start, k)
  }

  /** The memmove keeps the characters before `start`, then those from `start + k` on. */
  lemma {:induction false} CutShifts(c: string, start: nat, k: nat)
    requires start + k <= |c|
    ensures Cut(c, start, k) == c[..start] + c[start + k..]
  {
    DeleteTextSlices(c, start, k);
  }

  /** A chunk the walk keeps in the list, or nothing when it was left empty and is unlinked. */
  function Keep(c: string): seq<string>
  {
    if |c| == 0 then [] else [c]
  }

  /**
   * Unlinking loses no text and leaves no empty chunk: the kept list has the
   * chunk's text, no empty chunk and at most one chunk, whatever follows it.
   */
  lemma {:induction false} ConcatKeep(c: string, rest: seq<string>)
    ensures Concat(Keep(c) + rest) == c + Concat(rest)
    ensures NoEmptyChunks(Keep(c)) && |Keep(c)| <= 1
  {
    if |c| == 0 {
      assert Keep(c) + rest == rest;
    } else {
      ConcatCons(c, rest);
    }
  }

  /**
   * The staged list after the walk of markdown_delete, with the chars_seen
   * accounting advancing by the length of the chunk just processed.  `pos`
   * is the start of the span relative to the start of `chunks` (0 once the
   * span has begun) and `n` is the number of characters still to delete.
   * Every chunk the walk visits and leaves empty is unlinked; the walk stops
   * once n reaches 0.
   */
  function DeleteSpan(chunks: seq<string>, pos: nat, n: nat): seq<string>
    decreases |chunks|
  {
    if |chunks| == 0 || n == 0 then chunks
    else if |chunks[0]| > pos then
      var k := Min(n, |chunks[0]| - pos);
      Keep(Cut(chunks[0], pos, k)) + DeleteSpan(chunks[1..], 0, n - k)
    else
      Keep(chunks[0]) + DeleteSpan(chunks[1..], pos - |chunks[0]|, n)
  }

  /** Where the span starts relative to a chunk that starts at `charsSeen` (0 once it has begun). */
  function Rel(pos: nat, charsSeen: nat): nat
  {
    if pos >= charsSeen then pos - charsSeen else 0
  }

  /**
   * del_len of one iteration: what the chunk holds past the start offset,
   * capped at to_delete, when the chunk reaches past pos, and 0 otherwise.
   */
  function DelLen(c: string, pos: nat, charsSeen: nat, toDelete: nat): (k: nat)
    ensures k <= toDelete && k <= |c|
  {
    if charsSeen + |c| > pos then
      var start := if pos > charsSeen then pos - charsSeen else 0;
      Min(toDelete, |c| - start)
    else 0
  }

  /**
   * One iteration of the walk of markdown_delete, in the source's absolute
   * accounting, for the first chunk of `chunks`, which starts at charsSeen
   * and reaches past pos: k = min(n, what the chunk holds past the start
   * offset) characters are cut from it, and the walk goes on with the next
   * chunk, which starts at charsSeen + |chunks[0]|, with n - k characters
   * to delete.
   */
  lemma {:induction false} DeleteSpanCut(chunks: seq<string>, pos: nat, charsSeen: nat, n: nat, start: nat, k: nat)
    requires |chunks| > 0 && n > 0 && charsSeen + |chunks[0]| > pos
    requires start == (if pos > charsSeen then pos - charsSeen else 0)
    requires k == Min(n, |chunks[0]| - start)
    ensures DeleteSpan(chunks, Rel(pos, charsSeen), n)
         == Keep(Cut(chunks[0], start, k)) + DeleteSpan(chunks[1..], Rel(pos, charsSeen + |chunks[0]|), n - k)
  {
    assert Rel(pos, charsSeen + |chunks[0]|) == 0;
    if |chunks[0]| <= Rel(pos, charsSeen) {
      assert |chunks[0]| == 0 && start == 0 && k == 0;
      assert Cut(chunks[0], start, k) == chunks[0];
    }
  }

  /**
   * One iteration of the walk of markdown_delete for the first chunk of
   * `chunks`, which starts at charsSeen and ends at or before pos: it is
   * kept (or unlinked when empty) and the walk goes on with the next chunk.
   */
  lemma {:induction false} DeleteSpanPass(chunks: seq<string>, pos: nat, charsSeen: nat, n: nat)
    requires |chunks| > 0 && n > 0 && charsSeen + |chunks[0]| <= pos
    ensures DeleteSpan(chunks, Rel(pos, charsSeen), n)
         == Keep(chunks[0]) + DeleteSpan(chunks[1..], Rel(pos, charsSeen + |chunks[0]|), n)
  {
  }

  /**
   * Delete's effect on the staged text: the span [pos, pos + n) of the text,
   * clamped at its end, is removed, as the reference deletion removes it.
   */
  lemma {:induction false} DeleteSpanText(chunks: seq<string>, pos: nat, n: nat)
    ensures Concat(DeleteSpan(chunks, pos, n)) == DeleteText(Concat(chunks), pos, n)
    decreases |chunks|
  {
    if |chunks| == 0 || n == 0 {
    } else if |chunks[0]| > pos {
      var m := n - Min(n, |chunks[0]| - pos);
      DeleteSpanText(chunks[1..], 0, m);
      DeleteSpanCutText(chunks, pos, n, m);
    } else {
      var p := pos - |chunks[0]|;
      DeleteSpanText(chunks[1..], p, n);
      DeleteSpanPassText(chunks, pos, n, p);
    }
  }

  /** The text step of a span that starts in the first chunk, given the text of the rest. */
  lemma {:induction false} DeleteSpanCutText(chunks: seq<string>, pos: nat, n: nat, m: nat)
    requires |chunks| > 0 && n > 0 && |chunks[0]| > pos && m == n - Min(n, |chunks[0]| - pos)
    requires Concat(DeleteSpan(chunks[1..], 0, m)) == DeleteText(Concat(chunks[1..]), 0, m)
    ensures Concat(DeleteSpan(chunks, pos, n)) == DeleteText(Concat(chunks), pos, n)
  {
    var k := Min(n, |chunks[0]| - pos);
    ConcatCutFirst(chunks, pos, n);
    ConcatFirst(chunks);
    DeleteTextCut(chunks[0], Concat(chunks[1..]), pos, n);
  }

  /** The text step of a span that starts past the first chunk, given the text of the rest. */
  lemma {:induction false} DeleteSpanPassText(chunks: seq<string>, pos: nat, n: nat, p: nat)
    requires |chunks| > 0 && n > 0 && |chunks[0]| <= pos && p == pos - |chunks[0]|
    requires Concat(DeleteSpan(chunks[1..], p, n)) == DeleteText(Concat(chunks[1..]), p, n)
    ensures Concat(DeleteSpan(chunks, pos, n)) == DeleteText(Concat(chunks), pos, n)
  {
    ConcatPassFirst(chunks, pos, n);
    ConcatFirst(chunks);
    DeleteTextPass(chunks[0], Concat(chunks[1..]), pos, n);
  }

  lemma {:induction false} ConcatFirst(chunks: seq<string>)
    requires |chunks| > 0
    ensures Concat(chunks) == chunks[0] + Concat(chunks[1..])
  {
  }

  /** The text of the list after a span that starts in the first chunk. */
  lemma {:induction false} ConcatCutFirst(chunks: seq<string>, pos: nat, n: nat)
    requires |chunks| > 0 && n > 0 && |chunks[0]| > pos
    ensures var k := Min(n, |chunks[0]| - pos);
            Concat(DeleteSpan(chunks, pos, n)) == Cut(chunks[0], pos, k) + Concat(DeleteSpan(chunks[1..], 0, n - k))
  {
    var k := Min(n, |chunks[0]| - pos);
    ConcatKeep(Cut(chunks[0], pos, k), DeleteSpan(chunks[1..], 0, n - k));
  }

  /** The text of the list after a span that starts past the first chunk. */
  lemma {:induction false} ConcatPassFirst(chunks: seq<string>, pos: nat, n: nat)
    requires |chunks| > 0 && n > 0 && |chunks[0]| <= pos
    ensures Concat(DeleteSpan(chunks, pos, n)) == chunks[0] + Concat(DeleteSpan(chunks[1..], pos - |chunks[0]|, n))
  {
    ConcatKeep(chunks[0], DeleteSpan(chunks[1..], pos - |chunks[0]|, n));
  }

  /**
   * Delete's effect on the staged text s, as slices, with its bounds: the
   * text before pos is kept, then the text from pos + n, both clamped at the
   * end of s; at most n characters go in total, exactly min(n, |s| - pos) of
   * them when pos is inside the text, and nothing when pos is at or past
   * the end.
   */
  lemma {:induction false} DeleteSpanRemoves(chunks: seq<string>, pos: nat, n: nat)
    ensures var s := Concat(chunks);
            var s' := Concat(DeleteSpan(chunks, pos, n));
            s' == s[..Min(pos, |s|)] + s[Min(pos + n, |s|)..] &&
            |s'| <= |s| && |s| - |s'| <= n &&
            (pos < |s| ==> |s| - |s'| == Min(n, |s| - pos)) &&
            (pos >= |s| ==> s' == s)
  {
    DeleteSpanText(chunks, pos, n);
    DeleteTextSlices(Concat(chunks), pos, n);
  }

  predicate NoEmptyChunks(chunks: seq<string>)
  {
    forall i :: 0 <= i < |chunks| ==> |chunks[i]| > 0
  }

  /**
   * The number of chunks at the end of the list that the walk of
   * markdown_delete never reaches, because to_delete has dropped to 0 before
   * them (none when the walk runs to the end of the list).
   */
  function Untouched(chunks: seq<string>, pos: nat, n: nat): (k: nat)
    ensures k <= |chunks|
    ensures n == 0 ==> k == |chunks|
    decreases |chunks|
  {
    if |chunks| == 0 || n == 0 then |chunks|
    else if |chunks[0]| > pos then Untouched(chunks[1..], 0, n - Min(n, |chunks[0]| - pos))
    else Untouched(chunks[1..], pos - |chunks[0]|, n)
  }

  lemma {:induction false} NoEmptyAppend(a: seq<string>, b: seq<string>)
    requires NoEmptyChunks(a) && NoEmptyChunks(b)
    ensures NoEmptyChunks(a + b)
  {
    forall i | 0 <= i < |a + b| ensures |(a + b)[i]| > 0 {
      if i >= |a| {
        assert (a + b)[i] == b[i - |a|];
      }
    }
  }

  /** One step of the delete walk: the first chunk, rewritten or unlinked, then the walk on the rest. */
  lemma {:induction false} DeleteSpanStep(chunks: seq<string>, pos: nat, n: nat) returns (front: seq<string>, p: nat, m: nat)
    requires |chunks| > 0 && n > 0
    ensures DeleteSpan(chunks, pos, n) == front + DeleteSpan(chunks[1..], p, m)
    ensures Untouched(chunks, pos, n) == Untouched(chunks[1..], p, m)
    ensures NoEmptyChunks(front)
  {
    var c := chunks[0];
    if |c| > pos {
      front, p, m := Keep(Cut(c, pos, Min(n, |c| - pos))), 0, n - Min(n, |c| - pos);
    } else {
      front, p, m := Keep(c), pos - |c|, n;
    }
  }

  /**
   * `r` is a list without empty chunks followed by the last k chunks of
   * `chunks`, unchanged.
   */
  predicate UnlinkedBefore(r: seq<string>, chunks: seq<string>, k: nat)
  {
    k <= |r| && k <= |chunks| && r[|r| - k..] == chunks[|chunks| - k..] && NoEmptyChunks(r[..|r| - k])
  }

  /** A walk that visits nothing leaves the whole list untouched. */
  lemma {:induction false} UnlinkedNothing(chunks: seq<string>)
    ensures UnlinkedBefore(chunks, chunks, |chunks|)
  {
    assert chunks[..0] == [];
    assert chunks[0..] == chunks;
  }

  /**
   * Putting a visited front, without empty chunks, back before a walk result
   * on the rest of the list.
   */
  lemma {:induction false} Assemble(chunks: seq<string>, r: seq<string>, front: seq<string>, later: seq<string>, k: nat)
    requires |chunks| > 0 && r == front + later
    requires UnlinkedBefore(later, chunks[1..], k) && NoEmptyChunks(front)
    ensures UnlinkedBefore(r, chunks, k)
  {
    SplitAt(front, later, |later| - k);
    DropFirst(chunks, |chunks| - k);
    NoEmptyAppend(front, later[..|later| - k]);
  }

  /**
   * Every chunk the walk visits and leaves empty is unlinked, for any list:
   * the result is a list without empty chunks (the chunks the walk visited,
   * rewritten) followed by the chunks it never reached, unchanged.
   */
  lemma {:induction false} DeleteSpanUnlinksVisited(chunks: seq<string>, pos: nat, n: nat)
    ensures UnlinkedBefore(DeleteSpan(chunks, pos, n), chunks, Untouched(chunks, pos, n))
    decreases |chunks|
  {
    if |chunks| == 0 || n == 0 {
      UnlinkedNothing(chunks);
    } else {
      var front, p, m := DeleteSpanStep(chunks, pos, n);
      DeleteSpanUnlinksVisited(chunks[1..], p, m);
      Assemble(chunks, DeleteSpan(chunks, pos, n), front, DeleteSpan(chunks[1..], p, m), Untouched(chunks, pos, n));
    }
  }

  /** In particular, a list without empty chunks keeps none after the delete. */
  lemma {:induction false} DeleteSpanNoEmpty(chunks: seq<string>, pos: nat, n: nat)
    requires NoEmptyChunks(chunks)
    ensures NoEmptyChunks(DeleteSpan(chunks, pos, n))
  {
    var r := DeleteSpan(chunks, pos, n);
    var k := Untouched(chunks, pos, n);
    DeleteSpanUnlinksVisited(chunks, pos, n);
    var tail := chunks[|chunks| - k..];
    assert NoEmptyChunks(tail) by {
      forall i | 0 <= i < |tail| ensures |tail[i]| > 0 {
        assert tail[i] == chunks[|chunks| - k + i];
      }
    }
    assert r == r[..|r| - k] + r[|r| - k..];
    NoEmptyAppend(r[..|r| - k], r[|r| - k..]);
  }

  /** The delete never adds chunks: it rewrites or unlinks the chunks it visits. */
  lemma {:induction false} DeleteSpanLength(chunks: seq<string>, pos: nat, n: nat)
    ensures |DeleteSpan(chunks, pos, n)| <= |chunks|
    decreases |chunks|
  {
    if |chunks| == 0 || n == 0 {
    } else if |chunks[0]| > pos {
      DeleteSpanLength(chunks[1..], 0, n - Min(n, |chunks[0]| - pos));
    } else {
      DeleteSpanLength(chunks[1..], pos - |chunks[0]|, n);
    }
  }
}
