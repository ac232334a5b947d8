/**
  * The keyword retrieval of `RAGService`: scoring a text against the words of
  * a query, picking the best paragraph of a matching document as its snippet
  * (`_extract_relevant_snippet`), and assembling the context and the source
  * list from the user's completed documents (`retrieve_relevant_context`).
  *
  * The database query and the file reads are not modelled: the documents
  * arrive as `DocText` records carrying the text extracted from each file
  * (empty when extraction failed or the type is unsupported).
  */
module Retrieval {
  import opened Wrappers
  import opened Text

  /** Characters kept from a paragraph or a text before the ellipsis. */
  const SnippetLength: nat := 500

  /** The paragraph separator of `_extract_relevant_snippet`, also used to join context parts. */
  const ParagraphBreak: string := "\n\n"

  /** One of the user's completed documents, with the text read from its file. */
  datatype DocText = DocText(id: int, fileName: string, text: string)

  /** One entry of the returned source list. */
  datatype Source = Source(title: string, snippet: string, fileName: string, fileUrl: string)

  /** `query.lower().split()`: the words of the lower-cased query. */
  function Keywords(query: string): (ks: seq<string>)
    ensures forall k :: 0 <= k < |ks| ==> ks[k] != [] && '\n' !in ks[k]
  {
    var ks := Words(Lower(query));
    assert forall k :: 0 <= k < |ks| ==> '\n' !in ks[k] by {
      forall k | 0 <= k < |ks| ensures '\n' !in ks[k] {
        assert forall i :: 0 <= i < |ks[k]| ==> !IsSpace(ks[k][i]);
      }
    }
    ks
  }

  /** `sum(1 for keyword in keywords if keyword in haystack)`: how many of the
      keywords (counting repeats) occur in `haystack`. */
  function MatchCount(keywords: seq<string>, haystack: string): (n: nat)
    ensures n <= |keywords|
    ensures n > 0 <==> exists k :: 0 <= k < |keywords| && Contains(haystack, keywords[k])
  {
    if keywords == [] then 0
    else
      var last := keywords[|keywords| - 1];
      var n := MatchCount(keywords[..|keywords| - 1], haystack);
      assert forall k :: 0 <= k < |keywords| - 1 ==> keywords[..|keywords| - 1][k] == keywords[k];
      n + (if Contains(haystack, last) then 1 else 0)
  }

  /** The positions of the keywords that occur in `haystack`. */
  function Hits(keywords: seq<string>, haystack: string): set<int> {
    set k | 0 <= k < |keywords| && Contains(haystack, keywords[k])
  }

  /** The hit count is the number of keyword positions whose keyword occurs in
      `haystack`: a keyword given twice in the query counts twice. */
  lemma {:induction false} MatchCountIsCount(keywords: seq<string>, haystack: string)
    ensures MatchCount(keywords, haystack) == |Hits(keywords, haystack)|
    decreases |keywords|
  {
    if keywords != [] {
      var init, last := keywords[..|keywords| - 1], keywords[|keywords| - 1];
      MatchCountIsCount(init, haystack);
      assert forall k :: 0 <= k < |init| ==> init[k] == keywords[k];
      if Contains(haystack, last) {
        assert Hits(keywords, haystack) == Hits(init, haystack) + {|init|};
      } else {
        assert Hits(keywords, haystack) == Hits(init, haystack);
      }
    }
  }

  /** The score of a paragraph or a text: keyword hits in its lower-cased form. */
  function Score(keywords: seq<string>, s: string): nat {
    MatchCount(keywords, Lower(s))
  }

  /** The state `(best_paragraph, max_matches)` of the paragraph loop after the
      paragraphs `ps`: a paragraph replaces the current best only when it
      scores strictly more. */
  function BestParagraph(ps: seq<string>, keywords: seq<string>): (string, nat)
    decreases |ps|
  {
    if ps == [] then ("", 0)
    else
      var (best, max) := BestParagraph(ps[..|ps| - 1], keywords);
      var p := ps[|ps| - 1];
      var m := Score(keywords, p);
      if m > max then (p, m) else (best, max)
  }

  /** The loop keeps the highest score seen; when it is positive the best
      paragraph is the earliest one with that score, and when it is zero no
      paragraph was chosen. */
  lemma {:induction false} BestParagraphSpec(ps: seq<string>, keywords: seq<string>)
    ensures var (best, max) := BestParagraph(ps, keywords);
      && (forall j :: 0 <= j < |ps| ==> Score(keywords, ps[j]) <= max)
      && (max == 0 ==> best == "")
      && ((forall j :: 0 <= j < |ps| ==> Score(keywords, ps[j]) == 0) ==> max == 0)
      && (max > 0 ==> exists i :: 0 <= i < |ps| && best == ps[i] && Score(keywords, ps[i]) == max
                                  && forall j :: 0 <= j < i ==> Score(keywords, ps[j]) < max)
    decreases |ps|
  {
    if ps != [] {
      var init := ps[..|ps| - 1];
      BestParagraphSpec(init, keywords);
      var (best, max) := BestParagraph(init, keywords);
      assert forall j :: 0 <= j < |init| ==> init[j] == ps[j];
      if Score(keywords, ps[|ps| - 1]) <= max && max > 0 {
        var i :| 0 <= i < |init| && best == init[i] && Score(keywords, init[i]) == max
                 && forall j :: 0 <= j < i ==> Score(keywords, init[j]) < max;
        assert best == ps[i];
      }
    }
  }

  /** `_extract_relevant_snippet(text, query, keywords)`: the stripped best
      paragraph cut to 500 characters, or, when no paragraph contains a
      keyword, the text itself cut to 500 characters. */
  function Snippet(text: string, keywords: seq<string>): (r: string)
    ensures |r| <= SnippetLength + 3
  {
    var best := BestParagraph(SplitOn(text, ParagraphBreak), keywords).0;
    if best != [] then Truncate(Strip(best), SnippetLength) else Truncate(text, SnippetLength)
  }

  /** When no paragraph contains any keyword, the snippet is the first 500
      characters of the text, with the ellipsis only when the text is longer. */
  lemma {:induction false} SnippetFallback(text: string, keywords: seq<string>)
    requires forall j :: 0 <= j < |SplitOn(text, ParagraphBreak)|
               ==> Score(keywords, SplitOn(text, ParagraphBreak)[j]) == 0
    ensures Snippet(text, keywords) == Truncate(text, SnippetLength)
  {
    var ps := SplitOn(text, ParagraphBreak);
    BestParagraphSpec(ps, keywords);
    var r := BestParagraph(ps, keywords);
    assert r.1 == 0 && r.0 == "";
  }

  /** The snippet comes from the earliest paragraph with the highest positive
      score (when that paragraph is not empty): stripped, and cut to 500
      characters plus an ellipsis when longer. */
  lemma {:induction false} SnippetBest(text: string, keywords: seq<string>, i: nat)
    requires var ps := SplitOn(text, ParagraphBreak);
      && i < |ps| && ps[i] != [] && Score(keywords, ps[i]) > 0
      && (forall j :: 0 <= j < |ps| ==> Score(keywords, ps[j]) <= Score(keywords, ps[i]))
      && (forall j :: 0 <= j < i ==> Score(keywords, ps[j]) < Score(keywords, ps[i]))
    ensures Snippet(text, keywords) == Truncate(Strip(SplitOn(text, ParagraphBreak)[i]), SnippetLength)
  {
    var ps := SplitOn(text, ParagraphBreak);
    var r := BestParagraph(ps, keywords);
    assert r.0 == ps[i] by {
      BestParagraphSpec(ps, keywords);
      var best, max := r.0, r.1;
      assert Score(keywords, ps[i]) <= max;
      var b :| 0 <= b < |ps| && best == ps[b] && Score(keywords, ps[b]) == max
               && forall j :: 0 <= j < b ==> Score(keywords, ps[j]) < max;
      assert Score(keywords, ps[i]) == max;
      assert !(i < b) && !(b < i);
    }
  }

  /** A document whose lower-cased text contains a query word has a paragraph
      that does too (a word holds no newline, so no occurrence straddles a
      paragraph break): its snippet always comes from its best paragraph,
      never from the 500-character fallback. */
  lemma {:induction false} MatchedTextHasBestParagraph(text: string, query: string)
    requires Score(Keywords(query), text) > 0
    ensures var (best, max) := BestParagraph(SplitOn(text, ParagraphBreak), Keywords(query));
      max > 0 && best != [] && Snippet(text, Keywords(query)) == Truncate(Strip(best), SnippetLength)
  {
    var ks := Keywords(query);
    var k :| 0 <= k < |ks| && Contains(Lower(text), ks[k]);
    var at :| OccursAt(Lower(text), ks[k], at);
    assert forall j :: 0 <= j < |ParagraphBreak| ==> ParagraphBreak[j] == '\n';
    OccurrenceInSomePiece(Lower(text), ParagraphBreak, ks[k], at);
    SplitOnLower(text, ParagraphBreak);
    var ps := SplitOn(text, ParagraphBreak);
    var j :| 0 <= j < |SplitOn(Lower(text), ParagraphBreak)| && Contains(SplitOn(Lower(text), ParagraphBreak)[j], ks[k]);
    assert Contains(Lower(ps[j]), ks[k]);
    assert Score(ks, ps[j]) > 0;
    BestParagraphSpec(ps, ks);
    var (best, max) := BestParagraph(ps, ks);
    var i :| 0 <= i < |ps| && best == ps[i] && Score(ks, ps[i]) == max;
    var m :| 0 <= m < |ks| && Contains(Lower(ps[i]), ks[m]);
    assert best != [];
  }

  /** The loop of `_extract_relevant_snippet`. */
  method ExtractRelevantSnippet(text: string, query: string, keywords: seq<string>) returns (snippet: string)
    ensures snippet == Snippet(text, keywords)
  {
    var paragraphs := SplitOn(text, ParagraphBreak);
    var bestParagraph := "";
    var maxMatches := 0;
    for i := 0 to |paragraphs|
      invariant (bestParagraph, maxMatches) == BestParagraph(paragraphs[..i], keywords)
    {
      var paragraphLower := Lower(paragraphs[i]);
      var matches := MatchCount(keywords, paragraphLower);
      if matches > maxMatches {
        maxMatches := matches;
        bestParagraph := paragraphs[i];
      }
      assert paragraphs[..i + 1][..i] == paragraphs[..i];
    }
    assert paragraphs[..|paragraphs|] == paragraphs;
    if bestParagraph != [] {
      snippet := Strip(bestParagraph);
      if |snippet| > SnippetLength {
        snippet := snippet[..SnippetLength] + "...";
      }
      return snippet;
    }
    snippet := if |text| > SnippetLength then text[..SnippetLength] + "..." else text;
  }

  /** A document contributes when its text is non-empty and contains at least
      one query word, both lower-cased. */
  predicate Relevant(keywords: seq<string>, d: DocText) {
    d.text != [] && Score(keywords, d.text) > 0
  }

  /** The source entry of a contributing document. */
  function SourceOf(keywords: seq<string>, d: DocText): Source {
    Source("ONGC Document: " + d.fileName, Snippet(d.text, keywords), d.fileName,
           "/docs/" + IntToString(d.id) + "/download")
  }

  /** The context part of a contributing document. */
  function ContextPart(keywords: seq<string>, d: DocText): string {
    "From " + d.fileName + ":\n" + Snippet(d.text, keywords)
  }

  /** The lists `(context_parts, relevant_docs)` after the documents `docs`. */
  function Gather(docs: seq<DocText>, keywords: seq<string>): (seq<string>, seq<Source>)
    decreases |docs|
  {
    if docs == [] then ([], [])
    else
      var (parts, sources) := Gather(docs[..|docs| - 1], keywords);
      var d := docs[|docs| - 1];
      if Relevant(keywords, d) then (parts + [ContextPart(keywords, d)], sources + [SourceOf(keywords, d)])
      else (parts, sources)
  }

  /** `retrieve_relevant_context(query, user_id, db)` over the user's completed
      documents: the joined context, cut to `maxContextLength` characters plus
      an ellipsis, and the sources. */
  function RetrieveContext(docs: seq<DocText>, query: string, maxContextLength: nat): (r: (string, seq<Source>))
    ensures docs == [] ==> r == ("", [])
    ensures |r.0| <= maxContextLength + 3
  {
    if docs == [] then ("", [])
    else
      var (parts, sources) := Gather(docs, Keywords(query));
      (Truncate(Join(parts, ParagraphBreak), maxContextLength), sources)
  }

  /** The contributing documents, in order: the reference for `Gather`. */
  function RelevantDocs(docs: seq<DocText>, keywords: seq<string>): seq<DocText>
    decreases |docs|
  {
    if docs == [] then []
    else RelevantDocs(docs[..|docs| - 1], keywords)
         + (if Relevant(keywords, docs[|docs| - 1]) then [docs[|docs| - 1]] else [])
  }

  /** A document is kept exactly when it is one of the inputs and relevant. */
  lemma {:induction false} RelevantDocsMembers(docs: seq<DocText>, keywords: seq<string>, d: DocText)
    ensures d in RelevantDocs(docs, keywords) <==> d in docs && Relevant(keywords, d)
    decreases |docs|
  {
    if docs != [] {
      var init := docs[..|docs| - 1];
      RelevantDocsMembers(init, keywords, d);
      assert docs == init + [docs[|docs| - 1]];
    }
  }

  /** Filtering keeps document order: the kept documents of two consecutive
      runs of documents are the kept documents of each, one after the other. */
  lemma {:induction false} RelevantDocsAppend(a: seq<DocText>, b: seq<DocText>, keywords: seq<string>)
    ensures RelevantDocs(a + b, keywords) == RelevantDocs(a, keywords) + RelevantDocs(b, keywords)
    decreases |b|
  {
    if b != [] {
      var init := b[..|b| - 1];
      RelevantDocsAppend(a, init, keywords);
      assert (a + b)[..|a + b| - 1] == a + init;
      assert (a + b)[|a + b| - 1] == b[|b| - 1];
      var last := if Relevant(keywords, b[|b| - 1]) then [b[|b| - 1]] else [];
      ConcatAssoc(RelevantDocs(a, keywords), RelevantDocs(init, keywords), last);
    } else {
      assert a + b == a;
    }
  }

  /** The gathered lists hold, position by position, the context part and the
      source entry of each contributing document, in input order. */
  lemma {:induction false} GatherSpec(docs: seq<DocText>, keywords: seq<string>)
    ensures var (parts, sources) := Gather(docs, keywords);
      var kept := RelevantDocs(docs, keywords);
      && |parts| == |kept| && |sources| == |kept|
      && (forall i :: 0 <= i < |kept| ==> parts[i] == ContextPart(keywords, kept[i]))
      && (forall i :: 0 <= i < |kept| ==> sources[i] == SourceOf(keywords, kept[i]))
    decreases |docs|
  {
    if docs != [] {
      GatherSpec(docs[..|docs| - 1], keywords);
    }
  }

  /** The sources are the contributing documents: each is titled
      `ONGC Document: <file name>`, links to `/docs/<id>/download`, carries
      the document's snippet, and a document yields one exactly when its text
      is non-empty and contains a query word. */
  lemma {:induction false} SourcesOfRetrieval(docs: seq<DocText>, query: string, maxContextLength: nat, d: DocText)
    ensures var sources := RetrieveContext(docs, query, maxContextLength).1;
      && (SourceOf(Keywords(query), d) in sources <== d in docs && Relevant(Keywords(query), d))
      && (forall s :: s in sources ==>
            (exists e :: e in docs && Relevant(Keywords(query), e)
               && s == Source("ONGC Document: " + e.fileName, Snippet(e.text, Keywords(query)), e.fileName,
                              "/docs/" + IntToString(e.id) + "/download")))
  {
    var ks := Keywords(query);
    GatherSpec(docs, ks);
    var kept := RelevantDocs(docs, ks);
    var sources := RetrieveContext(docs, query, maxContextLength).1;
    RelevantDocsMembers(docs, ks, d);
    if d in docs && Relevant(ks, d) {
      var i :| 0 <= i < |kept| && kept[i] == d;
      assert sources[i] == SourceOf(ks, d);
    }
    forall s | s in sources
      ensures exists e :: e in docs && Relevant(ks, e) && s == SourceOf(ks, e)
    {
      var i :| 0 <= i < |sources| && sources[i] == s;
      RelevantDocsMembers(docs, ks, kept[i]);
    }
  }

  /** The context is the context parts joined by a blank line when that fits
      in `maxContextLength`; otherwise its first `maxContextLength` characters
      followed by an ellipsis. */
  lemma {:induction false} ContextOfRetrieval(docs: seq<DocText>, query: string, maxContextLength: nat)
    requires docs != []
    ensures var ks := Keywords(query);
      var kept := RelevantDocs(docs, ks);
      var joined := Join(seq(|kept|, i requires 0 <= i < |kept| => ContextPart(ks, kept[i])), ParagraphBreak);
      var context := RetrieveContext(docs, query, maxContextLength).0;
      && (|joined| <= maxContextLength ==> context == joined)
      && (|joined| > maxContextLength ==> context == joined[..maxContextLength] + "...")
  {
    var ks := Keywords(query);
    GatherSpec(docs, ks);
    var kept := RelevantDocs(docs, ks);
    assert Gather(docs, ks).0 == seq(|kept|, i requires 0 <= i < |kept| => ContextPart(ks, kept[i]));
  }

  /** The loop of `retrieve_relevant_context`. */
  method RetrieveRelevantContext(docs: seq<DocText>, query: string, maxContextLength: nat)
    returns (contextText: string, relevantDocs: seq<Source>)
    ensures (contextText, relevantDocs) == RetrieveContext(docs, query, maxContextLength)
  {
    if docs == [] {
      return "", [];
    }
    var contextParts: seq<string> := [];
    relevantDocs := [];
    var queryLower := Lower(query);
    var keywords := Words(queryLower);
    assert keywords == Keywords(query);
    for i := 0 to |docs|
      invariant (contextParts, relevantDocs) == Gather(docs[..i], keywords)
    {
      var doc := docs[i];
      assert docs[..i + 1][..i] == docs[..i];
      if doc.text == [] {
        continue;
      }
      var textLower := Lower(doc.text);
      var matches := MatchCount(keywords, textLower);
      if matches > 0 {
        var snippet := ExtractRelevantSnippet(doc.text, query, keywords);
        relevantDocs := relevantDocs + [Source("ONGC Document: " + doc.fileName, snippet, doc.fileName,
                                               "/docs/" + IntToString(doc.id) + "/download")];
        contextParts := contextParts + ["From " + doc.fileName + ":\n" + snippet];
      }
    }
    assert docs[..|docs|] == docs;
    contextText := Join(contextParts, ParagraphBreak);
    if |contextText| > maxContextLength {
      contextText := contextText[..maxContextLength] + "...";
    }
  }
}
