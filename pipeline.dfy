/** The run of `main` from the input text to the output text. The urls are fetched
    concurrently and their entries arrive in completion order, so the results are taken to
    be any arrangement of the per-url entries. */
module Pipeline {
  import opened Wrappers
  import opened Strings
  import opened LinkScanner
  import opened FetchWorker
  import opened ResultSerializer

  /** The entry of every url, in the order of `urls`; `fetched[k]` is what the request for
      `urls[k]` gave. */
  function ProcessAll(firstTitleText: string -> Option<string>, urls: seq<string>, fetched: seq<Fetched>)
    : (es: seq<Entry>)
    requires |fetched| == |urls|
    ensures Urls(es) == urls
    ensures forall k :: 0 <= k < |urls| ==> es[k] == ProcessUrl(firstTitleText, urls[k], fetched[k])
  {
    if urls == [] then []
    else [ProcessUrl(firstTitleText, urls[0], fetched[0])] + ProcessAll(firstTitleText, urls[1..], fetched[1..])
  }

  /** The urls of a concatenation are the urls of each part, concatenated. */
  lemma UrlsConcat(p: seq<Entry>, q: seq<Entry>)
    ensures Urls(p + q) == Urls(p) + Urls(q)
  {
  }

  /** Rearranging the entries rearranges their urls the same way. */
  lemma {:induction false} UrlsPermuted(a: seq<Entry>, b: seq<Entry>)
    requires multiset(a) == multiset(b)
    ensures multiset(Urls(a)) == multiset(Urls(b))
    decreases |a|
  {
    if a == [] {
      assert |b| == |multiset(b)| == 0;
    } else {
      var x, rest := a[0], a[1..];
      assert x in multiset(b);
      var i :| 0 <= i < |b| && b[i] == x;
      var front, back := b[..i], b[i + 1..];
      var b' := front + back;
      assert b == front + [x] + back;
      assert a == [x] + rest;
      calc {
        multiset(rest);
        multiset(a) - multiset{x};
        multiset(front) + multiset{x} + multiset(back) - multiset{x};
        multiset(b');
      }
      UrlsPermuted(rest, b');
      UrlsConcat(front + [x], back);
      UrlsConcat(front, [x]);
      UrlsConcat(front, back);
      UrlsConcat([x], rest);
    }
  }

  /** The results arrive in any order but each entry exactly once: rearranged, they keep
      their number and their urls. */
  lemma ArrangedUrls(es: seq<Entry>, results: seq<Entry>)
    requires multiset(results) == multiset(es)
    ensures |results| == |es|
    ensures multiset(Urls(results)) == multiset(Urls(es))
  {
    assert |results| == |multiset(results)| == |multiset(es)| == |es|;
    UrlsPermuted(results, es);
  }

  /** A result's url is one of the urls, so it has every property they all share. */
  lemma ResultUrlIsFound(results: seq<Entry>, urls: seq<string>, k: nat)
    requires multiset(Urls(results)) == multiset(urls) && k < |results|
    ensures results[k].url in urls
  {
    assert Urls(results)[k] in multiset(Urls(results));
  }

  /** The whole run: the results are the entries of the urls found in `input`, in some
      order. They hold every found url exactly as often as it was found, and each result is
      the outcome of one found url's own fetch. */
  lemma RunUrls(firstTitleText: string -> Option<string>, input: string, fetched: seq<Fetched>,
                results: seq<Entry>)
    requires |fetched| == |ExtractUrls(input)|
    requires multiset(results) == multiset(ProcessAll(firstTitleText, ExtractUrls(input), fetched))
    ensures |results| == |ExtractUrls(input)|
    ensures multiset(Urls(results)) == multiset(ExtractUrls(input))
    ensures forall j :: 0 <= j < |results| ==>
      exists i :: 0 <= i < |fetched| && results[j] == ProcessUrl(firstTitleText, ExtractUrls(input)[i], fetched[i])
  {
    var urls := ExtractUrls(input);
    ArrangedUrls(ProcessAll(firstTitleText, urls, fetched), results);
    ResultsFromOwnFetch(firstTitleText, urls, fetched, results);
  }

  /** Each collected result is the entry of one url and that url's own fetch. */
  lemma ResultsFromOwnFetch(firstTitleText: string -> Option<string>, urls: seq<string>,
                            fetched: seq<Fetched>, results: seq<Entry>)
    requires |fetched| == |urls|
    requires multiset(results) == multiset(ProcessAll(firstTitleText, urls, fetched))
    ensures forall j :: 0 <= j < |results| ==>
      exists i :: 0 <= i < |fetched| && results[j] == ProcessUrl(firstTitleText, urls[i], fetched[i])
  {
    var es := ProcessAll(firstTitleText, urls, fetched);
    forall j | 0 <= j < |results|
      ensures exists i :: 0 <= i < |fetched| && results[j] == ProcessUrl(firstTitleText, urls[i], fetched[i])
    {
      assert results[j] in multiset(es);
      var i :| 0 <= i < |es| && es[i] == results[j];
    }
  }

  /** Fetches do not affect each other: whatever the request for `urls[j]` gives, the entry of
      every other url stays the same. */
  lemma FetchIsolation(firstTitleText: string -> Option<string>, urls: seq<string>, fetched: seq<Fetched>,
                       j: nat, other: Fetched, k: nat)
    requires |fetched| == |urls| && j < |urls| && k < |urls| && k != j
    ensures ProcessAll(firstTitleText, urls, fetched[j := other])[k]
         == ProcessAll(firstTitleText, urls, fetched)[k]
  {
    assert fetched[j := other][k] == fetched[k];
  }

  /** The output of the entries `es` in any order has one line per entry, provided no title,
      reason or url holds a newline. */
  lemma OutputLineCount(es: seq<Entry>, results: seq<Entry>)
    requires multiset(results) == multiset(es)
    requires forall k :: 0 <= k < |results| ==>
      '\n' !in Text(results[k].outcome) && '\n' !in results[k].url
    ensures Occurrences(Rendered(results), '\n') == |es|
  {
    ArrangedUrls(es, results);
    LineCount(results);
  }

  /** Scanning the output finds the urls of the input again, each as often, whatever the
      order of the results, provided no title or failure reason holds ']'. */
  lemma OutputRoundTrip(input: string, es: seq<Entry>, results: seq<Entry>)
    requires Urls(es) == ExtractUrls(input)
    requires multiset(results) == multiset(es)
    requires forall k :: 0 <= k < |results| ==> ']' !in Text(results[k].outcome)
    ensures multiset(ExtractUrls(Rendered(results))) == multiset(ExtractUrls(input))
  {
    ArrangedUrls(es, results);
    forall k | 0 <= k < |results| ensures results[k].url != [] && ')' !in results[k].url {
      ResultUrlIsFound(results, ExtractUrls(input), k);
    }
    RenderRoundTrip(results);
  }

  /** An input without links gives an empty output. */
  lemma NoLinksNoOutput(input: string, es: seq<Entry>, results: seq<Entry>)
    requires Urls(es) == ExtractUrls(input)
    requires multiset(results) == multiset(es)
    requires forall p :: 0 <= p < |input| ==> !LinkStartsAt(input, p)
    ensures Rendered(results) == ""
  {
    NoLinkNoUrls(input);
    ArrangedUrls(es, results);
  }

  /** The two-link example: "[a](http://x.test/1)", a newline, "[b](http://x.test/2)". */
  lemma ExampleUrls(u1: string, u2: string)
    requires u1 == "http://x.test/1" && u2 == "http://x.test/2"
    ensures ExtractUrls(Link("a", u1) + "\n" + Link("b", u2)) == [u1, u2]
  {
    assert Link("a", u1) + "\n" + Link("b", u2) == Link("a", u1) + ("\n" + (Link("b", u2) + ""));
    assert ExtractUrls("") == [];
    LinkThenRest("b", u2, "");
    SkipChar('\n', Link("b", u2) + "");
    LinkThenRest("a", u1, "\n" + (Link("b", u2) + ""));
  }

  /** Two entries collected in some order come in one order or the other. */
  lemma TwoArrangements(results: seq<Entry>, e1: Entry, e2: Entry)
    requires multiset(results) == multiset{e1, e2}
    ensures results == [e1, e2] || results == [e2, e1]
  {
    assert |results| == |multiset(results)| == 2;
    assert results == [results[0], results[1]];
    assert results[0] in multiset(results);
    assert multiset{results[1]} == multiset{e1, e2} - multiset{results[0]};
  }

  /** `ProcessAll` over two urls. */
  lemma ProcessTwo(firstTitleText: string -> Option<string>, u1: string, u2: string, f1: Fetched, f2: Fetched)
    ensures ProcessAll(firstTitleText, [u1, u2], [f1, f2])
         == [ProcessUrl(firstTitleText, u1, f1), ProcessUrl(firstTitleText, u2, f2)]
  {
    assert [u1, u2][1..] == [u2] && [f1, f2][1..] == [f2];
    assert ProcessAll(firstTitleText, [u2], [f2]) == [ProcessUrl(firstTitleText, u2, f2)];
  }

  /** The output of two results, in their order. */
  lemma RenderedTwo(x: Entry, y: Entry)
    ensures Rendered([x, y]) == Line(x) + Line(y)
  {
    assert [x, y][1..] == [y];
    assert Rendered([y]) == Line(y) + Rendered([]);
  }

  /** The two-link example with the first page titled `title` (such as "Hello", with no
      whitespace at either end) and the second answering 404: the scan finds the two urls,
      and the output is the line "[title](http://x.test/1)" and the line
      "[HTTP 404 Not Found](http://x.test/2)", in either order. */
  lemma TwoLinkExample(firstTitleText: string -> Option<string>, page: string, notFound: string,
                       title: string, u1: string, u2: string, results: seq<Entry>)
    requires u1 == "http://x.test/1" && u2 == "http://x.test/2"
    requires title != [] && !IsWhitespace(title[0]) && !IsWhitespace(title[|title| - 1])
    requires firstTitleText(page) == Some(title)
    requires multiset(results) == multiset(ProcessAll(firstTitleText, [u1, u2],
      [Response(200, "200 OK", Body(page)), Response(404, "404 Not Found", Body(notFound))]))
    ensures ExtractUrls(Link("a", u1) + "\n" + Link("b", u2)) == [u1, u2]
    ensures var first, second := Link(title, u1) + "\n", Link("HTTP " + "404 Not Found", u2) + "\n";
      Rendered(results) == first + second || Rendered(results) == second + first
  {
    ExampleUrls(u1, u2);
    var f1, f2 := Response(200, "200 OK", Body(page)), Response(404, "404 Not Found", Body(notFound));
    ProcessTwo(firstTitleText, u1, u2, f1, f2);
    assert TrimmedAt(title, 0, |title|);
    TrimUnique(title, 0, |title|);
    var e1 := ProcessUrl(firstTitleText, u1, f1);
    var e2 := ProcessUrl(firstTitleText, u2, f2);
    assert Line(e1) == Link(title, u1) + "\n";
    assert Line(e2) == Link("HTTP " + "404 Not Found", u2) + "\n";
    TwoArrangements(results, e1, e2);
    RenderedTwo(e1, e2);
    RenderedTwo(e2, e1);
  }
}
