/**
 * `/query`: a blank question is refused; an empty collection and an empty
 * search result each get a fixed notice; otherwise the retrieved chunks are
 * laid out as a context, one source-labelled block per chunk, and the
 * language model's answer is returned with the distinct sources.
 */
module Query {
  import opened Strings
  import opened Text
  import opened Upload

  /** The JSON body of `/query`. */
  datatype QueryReply =
    | QueryRejected(status: int, detail: string)
    | Notice(answer: string)
    | Answered(question: string, answer: string, sources: seq<string>)

  /** The label line in front of each retrieved chunk. */
  const SourceLabel: string := "[Источник: "

  /** One retrieved chunk as it appears in the context: its source on a line of its own, then the chunk. */
  function Block(hit: Entry): string
  {
    SourceLabel + hit.source + "]\n" + hit.document
  }

  /** A block can be read back: the label, the source, "]", a newline, then the chunk. */
  lemma BlockParts(hit: Entry)
    ensures var b, n := Block(hit), |SourceLabel| + |hit.source|;
      |SourceLabel| == 11 &&
      |b| == n + 2 + |hit.document| &&
      b[..11] == SourceLabel && b[11..n] == hit.source &&
      b[n..n + 2] == "]\n" && b[n + 2..] == hit.document
  {
    var b := Block(hit);
    var n := |SourceLabel| + |hit.source|;
    assert b == SourceLabel + hit.source + "]\n" + hit.document;
    assert b[..11] == SourceLabel;
    assert b[11..n] == hit.source;
    assert b[n..n + 2] == "]\n";
    assert b[n + 2..] == hit.document;
  }

  /** The blocks of the retrieved chunks, in retrieval order. */
  function Blocks(hits: seq<Entry>): (r: seq<string>)
    ensures |r| == |hits|
    ensures forall i :: 0 <= i < |hits| ==> r[i] == Block(hits[i])
  {
    seq(|hits|, i requires 0 <= i < |hits| => Block(hits[i]))
  }

  /** The context handed to the language model: the blocks separated by blank lines. */
  function Context(hits: seq<Entry>): string
  {
    JoinWith("\n\n", Blocks(hits))
  }

  /**
   * The context holds one block per retrieved chunk, in retrieval order:
   * block `i` sits at its offset and, unless it is the last, is followed by
   * a blank line.
   */
  lemma ContextLayout(hits: seq<Entry>, i: nat)
    requires i < |hits|
    ensures var c, o, b := Context(hits), Offset("\n\n", Blocks(hits), i), Block(hits[i]);
      o + |b| <= |c| && c[o..o + |b|] == b &&
      (i + 1 < |hits| ==> o + |b| + 2 <= |c| && c[o + |b|..o + |b| + 2] == "\n\n")
  {
    JoinLayout("\n\n", Blocks(hits), i);
  }

  /** The context is exactly as long as its blocks and the blank lines between them. */
  lemma ContextLength(hits: seq<Entry>)
    requires |hits| > 0
    ensures |Context(hits)| == TotalLength(Blocks(hits)) + 2 * (|hits| - 1)
  {
    JoinLength("\n\n", Blocks(hits));
  }

  /** No element occurs twice. */
  predicate NoDuplicates(xs: seq<string>)
  {
    forall i, j :: 0 <= i < j < |xs| ==> xs[i] != xs[j]
  }

  /** The source of each retrieved chunk, duplicates included. */
  function SourcesOf(hits: seq<Entry>): (r: seq<string>)
    ensures |r| == |hits|
    ensures forall i :: 0 <= i < |hits| ==> r[i] == hits[i].source
  {
    seq(|hits|, i requires 0 <= i < |hits| => hits[i].source)
  }

  /**
   * `list(set(xs))`: each element once. Python leaves the order of a set
   * unspecified; this keeps first occurrences, which is one of the orders
   * it may produce (`DistinctUpToOrder`: they all have the same elements,
   * each once).
   */
  function Distinct(xs: seq<string>): (r: seq<string>)
    ensures NoDuplicates(r)
    ensures forall x :: x in r <==> x in xs
  {
    if |xs| == 0 then []
    else
      var r := Distinct(xs[..|xs| - 1]);
      var x := xs[|xs| - 1];
      assert forall y :: y in xs <==> y in xs[..|xs| - 1] || y == x;
      if x in r then r else r + [x]
  }

  /** A list without duplicates holds each of its elements exactly once. */
  lemma {:induction false} NoDuplicatesOnce(xs: seq<string>)
    requires NoDuplicates(xs)
    ensures forall x :: multiset(xs)[x] == if x in xs then 1 else 0
  {
    if |xs| > 0 {
      var init, last := xs[..|xs| - 1], xs[|xs| - 1];
      assert xs == init + [last];
      NoDuplicatesOnce(init);
      assert last !in init;
      assert forall x :: x in xs <==> x in init || x == last;
    }
  }

  /**
   * Whatever order the set yields, the sources are the same: two lists
   * without duplicates and with the same elements are permutations of each
   * other.
   */
  lemma DistinctUpToOrder(a: seq<string>, b: seq<string>)
    requires NoDuplicates(a) && NoDuplicates(b)
    requires forall x :: x in a <==> x in b
    ensures multiset(a) == multiset(b)
  {
    NoDuplicatesOnce(a);
    NoDuplicatesOnce(b);
    assert forall x :: multiset(a)[x] == multiset(b)[x];
  }

  /** The `sources` of a reply: the distinct sources of the retrieved chunks. */
  function Sources(hits: seq<Entry>): (r: seq<string>)
    ensures NoDuplicates(r)
    ensures forall s :: s in r <==> exists h :: h in hits && h.source == s
  {
    var all := SourcesOf(hits);
    assert forall s :: s in all <==> exists h :: h in hits && h.source == s by {
      forall s | s in all
        ensures exists h :: h in hits && h.source == s
      {
        var i :| 0 <= i < |all| && all[i] == s;
        assert hits[i] in hits;
      }
      forall s | exists h :: h in hits && h.source == s
        ensures s in all
      {
        var h :| h in hits && h.source == s;
        var i :| 0 <= i < |hits| && hits[i] == h;
        assert all[i] == s;
      }
    }
    Distinct(all)
  }

  /**
   * `query_knowledge`. The collection's contents (`peek` is empty exactly
   * when it is), the search hits for the question, and the language model
   * (`ask(context, question)`) are inputs.
   */
  function QueryKnowledge(question: string, entries: seq<Entry>, hits: seq<Entry>, ask: (string, string) -> string): (reply: QueryReply)
    ensures reply.QueryRejected? <==> Blank(question)
    ensures reply.QueryRejected? ==> reply.status == 400
    ensures reply.Answered? <==> !Blank(question) && entries != [] && hits != []
    ensures reply.Answered? ==>
      reply.question == question && reply.answer == ask(Context(hits), question) &&
      NoDuplicates(reply.sources) &&
      (forall s :: s in reply.sources <==> exists h :: h in hits && h.source == s)
  {
    StripEmptyIffBlank(question);
    if Strip(question) == [] then QueryRejected(400, "Вопрос не может быть пустым")
    else if entries == [] then Notice("База знаний пуста. Загрузите документы.")
    else if hits == [] then Notice("Ничего не найдено.")
    else Answered(question, ask(Context(hits), question), Sources(hits))
  }

  /** The notices: an empty collection is reported before the search, no hits after it. */
  lemma QueryNotices(question: string, entries: seq<Entry>, hits: seq<Entry>, ask: (string, string) -> string)
    requires !Blank(question)
    ensures entries == [] ==> QueryKnowledge(question, entries, hits, ask) == Notice("База знаний пуста. Загрузите документы.")
    ensures entries != [] && hits == [] ==> QueryKnowledge(question, entries, hits, ask) == Notice("Ничего не найдено.")
  {
    StripEmptyIffBlank(question);
  }
}
