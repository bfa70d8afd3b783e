/**
 * `chunk_text`: normalise the whitespace of a text, split it into words and
 * pack the words greedily into chunks, closing a chunk as soon as its
 * space-joined length exceeds the chunk size.
 */
module Chunking {
  import opened Strings
  import opened Text

  /** The chunk size `upload_files` uses (the parameter's default). */
  const DefaultChunkSize: int := 512

  /**
   * A run of words still fits once its last word is taken away: a chunk is
   * closed the first time it outgrows the size, so everything before its
   * last word was within the size.
   */
  predicate FitsBeforeLastWord(group: seq<string>, size: int)
  {
    |group| <= 1 || |JoinWith(" ", group[..|group| - 1])| <= size
  }

  /**
   * What `chunk_text(text, size)` promises of its result, without reference
   * to its loop: the chunks rejoined with single spaces are the normalised
   * text; every chunk is non-empty and single-spaced; every chunk but the
   * last is longer than the size; and every chunk, without its last word,
   * is within the size.
   */
  predicate IsChunking(text: string, size: int, chunks: seq<string>)
  {
    && JoinWith(" ", chunks) == Normalize(text)
    && (forall i :: 0 <= i < |chunks| ==> chunks[i] != [] && SingleSpaced(chunks[i]))
    && (forall i :: 0 <= i < |chunks| - 1 ==> |chunks[i]| > size)
    && (forall i :: 0 <= i < |chunks| ==> FitsBeforeLastWord(Split(chunks[i]), size))
  }

  /**
   * Greedy grouping of words: consecutive non-empty groups that make up
   * the words, every group but the last longer than the size once joined,
   * every group within the size without its last word.
   */
  predicate IsGreedyGrouping(words: seq<string>, size: int, groups: seq<seq<string>>)
  {
    && Concat(groups) == words
    && (forall k :: 0 <= k < |groups| ==> |groups[k]| > 0)
    && (forall k :: 0 <= k < |groups| - 1 ==> |JoinWith(" ", groups[k])| > size)
    && (forall k :: 0 <= k < |groups| ==> FitsBeforeLastWord(groups[k], size))
  }

  /** The words of each chunk, chunk by chunk. */
  function SplitEach(chunks: seq<string>): (r: seq<seq<string>>)
    ensures |r| == |chunks|
    ensures forall i :: 0 <= i < |chunks| ==> r[i] == Split(chunks[i])
  {
    seq(|chunks|, i requires 0 <= i < |chunks| => Split(chunks[i]))
  }

  /**
   * The greedy packing as a function: `current` is the open chunk, and each
   * word either joins it or, when the joined length would exceed `size`,
   * closes it together with that word.
   */
  function Greedy(words: seq<string>, size: int, current: seq<string>): seq<seq<string>>
    decreases |words|
  {
    if |words| == 0 then
      (if current == [] then [] else [current])
    else
      var c := current + [words[0]];
      if |JoinWith(" ", c)| > size then [c] + Greedy(words[1..], size, [])
      else Greedy(words[1..], size, c)
  }

  /**
   * The chunks `chunk_text(text, size)` returns: the greedy packing of the
   * words of the whitespace-normalised text (nothing for a blank text).
   */
  function Chunks(text: string, size: int): seq<string>
  {
    var normalized := Normalize(text);
    if normalized == [] then [] else JoinEach(" ", Greedy(Split(normalized), size, []))
  }

  /** `chunk_text`: the words of the normalised text, packed by `PackWords`. */
  method ChunkText(text: string, chunkSize: int) returns (chunks: seq<string>)
    ensures chunks == Chunks(text, chunkSize)
    ensures chunks == [] <==> Blank(text)
  {
    ChunksEmptyIffBlank(text, chunkSize);
    var normalized := Normalize(text);
    if normalized == [] {
      return [];
    }
    chunks := PackWords(Split(normalized), chunkSize);
  }

  /**
   * The loop of `chunk_text`: it appends each word to `current` and closes
   * the chunk the moment its joined length exceeds `chunkSize`; what is
   * left after the last word becomes the final chunk.
   */
  method PackWords(words: seq<string>, chunkSize: int) returns (chunks: seq<string>)
    ensures chunks == JoinEach(" ", Greedy(words, chunkSize, []))
  {
    chunks := [];
    var current: seq<string> := [];
    ghost var groups: seq<seq<string>> := [];
    for i := 0 to |words|
      invariant chunks == JoinEach(" ", groups)
      invariant groups + Greedy(words[i..], chunkSize, current) == Greedy(words, chunkSize, [])
    {
      GreedyStep(words, i, chunkSize, current);
      current := current + [words[i]];
      var joined := JoinWith(" ", current);
      if |joined| > chunkSize {
        CloseGroup(groups, current);
        AppendAssoc(groups, [current], Greedy(words[i + 1..], chunkSize, []));
        chunks := chunks + [joined];
        groups := groups + [current];
        current := [];
      }
    }
    LastStep(words, chunkSize, groups, current);
    if current != [] {
      CloseGroup(groups, current);
      chunks := chunks + [JoinWith(" ", current)];
      groups := groups + [current];
    }
  }

  /** After the last word, the pending packing is the open chunk alone, if any. */
  lemma LastStep(words: seq<string>, size: int, groups: seq<seq<string>>, current: seq<string>)
    requires groups + Greedy(words[|words|..], size, current) == Greedy(words, size, [])
    ensures (if current == [] then groups else groups + [current]) == Greedy(words, size, [])
  {
    assert words[|words|..] == [];
  }

  /** One word of the loop, as one step of `Greedy`. */
  lemma GreedyStep(words: seq<string>, i: nat, size: int, current: seq<string>)
    requires i < |words|
    ensures var c := current + [words[i]];
      Greedy(words[i..], size, current) ==
        if |JoinWith(" ", c)| > size then [c] + Greedy(words[i + 1..], size, [])
        else Greedy(words[i + 1..], size, c)
  {
    assert words[i..][1..] == words[i + 1..];
  }

  /**
   * The state of `chunk_text`'s loop after the words `done`: the closed
   * chunks (as word groups) followed by the open chunk `current` are those
   * words; every closed chunk outgrew the size only with its last word; the
   * open chunk is within the size.
   */
  ghost predicate Packed(done: seq<string>, size: int, groups: seq<seq<string>>, current: seq<string>)
  {
    && Concat(groups) + current == done
    && Closed(groups, size)
    && (current != [] ==> |JoinWith(" ", current)| <= size)
  }

  /** Every group is a closed chunk: non-empty, over the size, within it before its last word. */
  ghost predicate Closed(groups: seq<seq<string>>, size: int)
  {
    forall k :: 0 <= k < |groups| ==>
      groups[k] != [] && |JoinWith(" ", groups[k])| > size && FitsBeforeLastWord(groups[k], size)
  }

  /** Closing one more chunk keeps `Closed`. */
  lemma ClosedAppend(groups: seq<seq<string>>, size: int, g: seq<string>)
    requires Closed(groups, size)
    requires g != [] && |JoinWith(" ", g)| > size && FitsBeforeLastWord(g, size)
    ensures Closed(groups + [g], size)
  {
    var all := groups + [g];
    forall k | 0 <= k < |all|
      ensures all[k] != [] && |JoinWith(" ", all[k])| > size && FitsBeforeLastWord(all[k], size)
    {
      if k < |groups| {
        assert all[k] == groups[k];
      }
    }
  }

  /** Closed chunks followed by a last chunk that fits before its last word form a greedy grouping. */
  lemma ClosedThenLast(words: seq<string>, size: int, groups: seq<seq<string>>, g: seq<string>)
    requires Closed(groups, size) && Concat(groups + [g]) == words
    requires g != [] && FitsBeforeLastWord(g, size)
    ensures IsGreedyGrouping(words, size, groups + [g])
  {
    var all := groups + [g];
    forall k | 0 <= k < |all|
      ensures |all[k]| > 0 && FitsBeforeLastWord(all[k], size)
      ensures k < |all| - 1 ==> |JoinWith(" ", all[k])| > size
    {
      if k < |groups| {
        assert all[k] == groups[k];
      }
    }
  }

  /** An iteration that leaves the chunk open keeps `Packed`. */
  lemma PackOpen(done: seq<string>, size: int, groups: seq<seq<string>>, current: seq<string>, w: string)
    requires Packed(done, size, groups, current)
    requires |JoinWith(" ", current + [w])| <= size
    ensures Packed(done + [w], size, groups, current + [w])
  {
    assert Concat(groups) + (current + [w]) == (Concat(groups) + current) + [w];
  }

  /** Adding a word to an open chunk within the size gives a run of words that fits before its last word. */
  lemma NewGroup(size: int, current: seq<string>, w: string)
    requires current != [] ==> |JoinWith(" ", current)| <= size
    ensures current + [w] != [] && FitsBeforeLastWord(current + [w], size)
  {
    var c := current + [w];
    assert c[..|c| - 1] == current;
  }

  /** An iteration that closes the chunk keeps `Packed`, with an empty open chunk. */
  lemma PackClose(done: seq<string>, size: int, groups: seq<seq<string>>, current: seq<string>, w: string)
    requires Packed(done, size, groups, current)
    requires |JoinWith(" ", current + [w])| > size
    ensures Packed(done + [w], size, groups + [current + [w]], [])
  {
    var c := current + [w];
    NewGroup(size, current, w);
    ConcatAppend(groups, c);
    ClosedAppend(groups, size, c);
    assert Concat(groups + [c]) + [] == (Concat(groups) + current) + [w];
  }

  /** After the last word, the leftover chunk (if any) closes the grouping. */
  lemma PackedDone(words: seq<string>, size: int, groups: seq<seq<string>>, current: seq<string>, all: seq<seq<string>>)
    requires Packed(words, size, groups, current)
    requires all == if current == [] then groups else groups + [current]
    ensures IsGreedyGrouping(words, size, all)
  {
    if current == [] {
      assert Concat(groups) + current == Concat(groups);
    } else {
      ConcatAppend(groups, current);
      var n := |current|;
      if n > 1 {
        assert current[..n - 1] + [current[n - 1]] == current;
        JoinPrefixShorter(current[..n - 1], [current[n - 1]]);
      }
      ClosedThenLast(words, size, groups, current);
    }
  }

  /**
   * Packing the remaining words from a `Packed` state yields a greedy
   * grouping of all the words.
   */
  lemma {:induction false} GreedyPacked(done: seq<string>, rest: seq<string>, size: int, groups: seq<seq<string>>, current: seq<string>)
    requires Packed(done, size, groups, current)
    ensures IsGreedyGrouping(done + rest, size, groups + Greedy(rest, size, current))
    decreases |rest|
  {
    if |rest| == 0 {
      var all := groups + Greedy(rest, size, current);
      assert all == if current == [] then groups else groups + [current];
      PackedDone(done, size, groups, current, all);
      assert done + rest == done;
    } else {
      var w := rest[0];
      var c := current + [w];
      GreedyUnfold(done, rest, size, groups, current);
      if |JoinWith(" ", c)| > size {
        PackClose(done, size, groups, current, w);
        GreedyPacked(done + [w], rest[1..], size, groups + [c], []);
      } else {
        PackOpen(done, size, groups, current, w);
        GreedyPacked(done + [w], rest[1..], size, groups, c);
      }
    }
  }

  /** One word of `Greedy`, with the closed groups in front. */
  lemma GreedyUnfold(done: seq<string>, rest: seq<string>, size: int, groups: seq<seq<string>>, current: seq<string>)
    requires |rest| > 0
    ensures done + rest == (done + [rest[0]]) + rest[1..]
    ensures var c := current + [rest[0]];
      groups + Greedy(rest, size, current) ==
        if |JoinWith(" ", c)| > size then (groups + [c]) + Greedy(rest[1..], size, [])
        else groups + Greedy(rest[1..], size, c)
  {
    var c := current + [rest[0]];
    if |JoinWith(" ", c)| > size {
      AppendAssoc(groups, [c], Greedy(rest[1..], size, []));
    }
  }

  /** `Chunks` meets the contract of `chunk_text`. */
  lemma ChunksAreChunking(text: string, size: int)
    ensures IsChunking(text, size, Chunks(text, size))
  {
    if Normalize(text) != [] {
      PackingIsChunking(text, size);
    }
  }

  /** `chunk_text` returns no chunks exactly for a blank text. */
  lemma ChunksEmptyIffBlank(text: string, size: int)
    ensures Chunks(text, size) == [] <==> Blank(text)
  {
    NormalizeEmptyIffBlank(text);
    if Normalize(text) != [] {
      PackingIsChunking(text, size);
    }
  }

  /** The greedy packing of the words of a text that is not blank is a chunking of it. */
  lemma PackingIsChunking(text: string, size: int)
    requires Normalize(text) != []
    ensures var chunks := JoinEach(" ", Greedy(Split(Normalize(text)), size, []));
      chunks != [] && IsChunking(text, size, chunks)
  {
    var words := Split(Normalize(text));
    var groups := Greedy(words, size, []);
    GreedyPacked([], words, size, [], []);
    SplitAllWords(Normalize(text));
    assert [] + groups == groups;
    assert [] + words == words;
    ChunkingFromGroups(text, size, words, groups, JoinEach(" ", groups));
  }

  /** Closing a group extends the chunks by its join. */
  lemma CloseGroup(groups: seq<seq<string>>, current: seq<string>)
    ensures JoinEach(" ", groups + [current]) == JoinEach(" ", groups) + [JoinWith(" ", current)]
  {
    assert (groups + [current])[..|groups|] == groups;
  }

  /** Closing a group extends the words of the closed groups by its words. */
  lemma ConcatAppend<T>(groups: seq<seq<T>>, current: seq<T>)
    ensures Concat(groups + [current]) == Concat(groups) + current
  {
    assert (groups + [current])[..|groups|] == groups;
  }

  /** The final step of `ChunkText`'s proof: from the word groups to the chunk contract. */
  lemma ChunkingFromGroups(text: string, size: int, words: seq<string>, groups: seq<seq<string>>, chunks: seq<string>)
    requires words == Split(Normalize(text)) && Normalize(text) != []
    requires chunks == JoinEach(" ", groups)
    requires IsGreedyGrouping(words, size, groups)
    requires AllWords(words)
    ensures chunks != []
    ensures IsChunking(text, size, chunks)
  {
    NormalizeKeepsWords(text);
    NormalizeEmptyIffBlank(text);
    NoWordsIffBlank(text);
    assert groups != [];
    WordsOfGroups(groups);
    JoinFlatten(" ", groups);
    NormalizeIsJoinedWords(text);
    forall i | 0 <= i < |chunks|
      ensures chunks[i] != [] && SingleSpaced(chunks[i])
      ensures Split(chunks[i]) == groups[i]
    {
      JoinedWordsSingleSpaced(groups[i]);
      JoinLongerThanPart(" ", groups[i], 0);
      SplitJoin(groups[i]);
    }
  }

  // ---------------------------------------------------------------------
  // What the contract implies

  /** Concatenating a first group in front. */
  lemma {:induction false} ConcatPrepend<T>(g: seq<T>, gs: seq<seq<T>>)
    ensures Concat([g] + gs) == g + Concat(gs)
  {
    if |gs| > 0 {
      var init := gs[..|gs| - 1];
      assert ([g] + gs)[..|gs|] == [g] + init;
      ConcatPrepend(g, init);
    } else {
      assert [g] + gs == [g];
      assert [g][..0] == [];
    }
  }

  /** The word groups of a chunking are non-empty runs of words. */
  lemma ChunkGroups(text: string, size: int, chunks: seq<string>)
    requires IsChunking(text, size, chunks)
    ensures chunks == JoinEach(" ", SplitEach(chunks))
    ensures forall i :: 0 <= i < |chunks| ==> |SplitEach(chunks)[i]| > 0 && |JoinWith(" ", SplitEach(chunks)[i])| == |chunks[i]|
  {
    var groups := SplitEach(chunks);
    forall i | 0 <= i < |chunks|
      ensures JoinWith(" ", groups[i]) == chunks[i] && |groups[i]| > 0
    {
      SingleSpacedIsJoinedWords(chunks[i]);
    }
  }

  /** No word of the text is lost, duplicated or reordered by chunking. */
  lemma ChunkingKeepsWords(text: string, size: int, chunks: seq<string>)
    requires IsChunking(text, size, chunks)
    ensures Concat(SplitEach(chunks)) == Split(text)
  {
    var groups := SplitEach(chunks);
    ChunkGroups(text, size, chunks);
    JoinFlatten(" ", groups);
    NormalizeIsJoinedWords(text);
    forall k | 0 <= k < |groups|
      ensures AllWords(groups[k])
    {
      SplitAllWords(chunks[k]);
    }
    ConcatAllWords(groups);
    SplitJoin(Concat(groups));
    SplitAllWords(text);
    SplitJoin(Split(text));
  }

  /** Each group of a run of words is a run of words. */
  lemma {:induction false} WordsOfGroups(groups: seq<seq<string>>)
    requires AllWords(Concat(groups))
    ensures forall k :: 0 <= k < |groups| ==> AllWords(groups[k])
  {
    if |groups| > 0 {
      var init, last := groups[..|groups| - 1], groups[|groups| - 1];
      var c := Concat(init);
      assert Concat(groups) == c + last;
      assert forall i :: 0 <= i < |c| ==> (c + last)[i] == c[i];
      assert forall i :: 0 <= i < |last| ==> (c + last)[|c| + i] == last[i];
      WordsOfGroups(init);
    }
  }

  lemma {:induction false} ConcatAllWords(groups: seq<seq<string>>)
    requires forall k :: 0 <= k < |groups| ==> AllWords(groups[k])
    ensures AllWords(Concat(groups))
  {
    if |groups| > 0 {
      ConcatAllWords(groups[..|groups| - 1]);
    }
  }

  /** A run of words joins to at least the length of any shorter run it starts with. */
  lemma JoinPrefixShorter(p: seq<string>, r: seq<string>)
    requires |p| > 0
    ensures |JoinWith(" ", p)| <= |JoinWith(" ", p + r)|
  {
    if |r| > 0 {
      JoinConcat(" ", p, r);
    } else {
      assert p + r == p;
    }
  }

  /** The first group of a greedy grouping starts the words, and is closed unless it is the only one. */
  lemma FirstGroup(words: seq<string>, size: int, g: seq<seq<string>>)
    requires IsGreedyGrouping(words, size, g) && |g| > 0
    ensures |g[0]| > 0 && |g[0]| <= |words| && g[0] == words[..|g[0]|]
    ensures g[0] == words || |JoinWith(" ", g[0])| > size
    ensures FitsBeforeLastWord(g[0], size)
    ensures Concat(g[1..]) == words[|g[0]|..]
  {
    ConcatPrepend(g[0], g[1..]);
    assert [g[0]] + g[1..] == g;
    if |g| == 1 {
      assert g[1..] == [];
    }
  }

  /**
   * Of two runs that both start the words, one closed (the whole words, or
   * over the size) and one that fits before its last word, the closed one
   * is not the shorter.
   */
  lemma ClosedNotShorter(words: seq<string>, size: int, a: seq<string>, b: seq<string>)
    requires |a| > 0 && |a| <= |words| && a == words[..|a|]
    requires |b| <= |words| && b == words[..|b|]
    requires a == words || |JoinWith(" ", a)| > size
    requires FitsBeforeLastWord(b, size)
    ensures |a| >= |b|
  {
    if |a| < |b| {
      var d := b[..|b| - 1];
      assert a == d[..|a|];
      assert d == a + d[|a|..];
      JoinPrefixShorter(a, d[|a|..]);
    }
  }

  /** A greedy grouping of the words is unique. */
  lemma {:induction false} GreedyGroupingUnique(words: seq<string>, size: int, g: seq<seq<string>>, h: seq<seq<string>>)
    requires IsGreedyGrouping(words, size, g) && IsGreedyGrouping(words, size, h)
    ensures g == h
    decreases |words|
  {
    if |g| > 0 && |h| > 0 {
      FirstGroup(words, size, g);
      FirstGroup(words, size, h);
      ClosedNotShorter(words, size, g[0], h[0]);
      ClosedNotShorter(words, size, h[0], g[0]);
      assert g[0] == h[0];
      var rest := words[|g[0]|..];
      assert IsGreedyGrouping(rest, size, g[1..]);
      assert IsGreedyGrouping(rest, size, h[1..]);
      GreedyGroupingUnique(rest, size, g[1..], h[1..]);
    }
  }

  /**
   * The contract of `chunk_text` determines its result: any two chunkings
   * of the same text for the same size are the same list of chunks.
   */
  lemma ChunkingUnique(text: string, size: int, a: seq<string>, b: seq<string>)
    requires IsChunking(text, size, a) && IsChunking(text, size, b)
    ensures a == b
  {
    ChunkingIsGreedy(text, size, a);
    ChunkingIsGreedy(text, size, b);
    GreedyGroupingUnique(Split(text), size, SplitEach(a), SplitEach(b));
    ChunkGroups(text, size, a);
    ChunkGroups(text, size, b);
  }

  lemma ChunkingIsGreedy(text: string, size: int, chunks: seq<string>)
    requires IsChunking(text, size, chunks)
    ensures IsGreedyGrouping(Split(text), size, SplitEach(chunks))
  {
    ChunkGroups(text, size, chunks);
    ChunkingKeepsWords(text, size, chunks);
  }
}
