/** The output loop of `main`: one markdown link line per result, the title or the failure
    reason in the brackets and the url in the parentheses. */
module ResultSerializer {
  import opened Strings
  import opened LinkScanner
  import opened FetchWorker

  /** The text a result puts between the brackets: its title, or its failure reason. */
  function Text(o: Outcome): string
  {
    match o
    case Ok(title) => title
    case Err(reason) => reason
  }

  /** The line written for one result. */
  function Line(e: Entry): string
  {
    Link(Text(e.outcome), e.url) + "\n"
  }

  /** The whole output: the lines of `rs`, in the order of `rs`. */
  function Rendered(rs: seq<Entry>): string
  {
    if rs == [] then "" else Line(rs[0]) + Rendered(rs[1..])
  }

  /** The urls of `rs`, in order. */
  function Urls(rs: seq<Entry>): (us: seq<string>)
    ensures |us| == |rs| && forall k :: 0 <= k < |rs| ==> us[k] == rs[k].url
  {
    seq(|rs|, k requires 0 <= k < |rs| => rs[k].url)
  }

  /** Rendering more results appends their lines after the ones already written. */
  lemma {:induction false} RenderedAppend(rs: seq<Entry>, more: seq<Entry>)
    ensures Rendered(rs + more) == Rendered(rs) + Rendered(more)
    decreases |rs|
  {
    if rs == [] {
      assert rs + more == more;
    } else {
      assert (rs + more)[1..] == rs[1..] + more;
      RenderedAppend(rs[1..], more);
    }
  }

  /** Rendering one more result appends its line. */
  lemma LinesAppend(rs: seq<Entry>, e: Entry)
    ensures Rendered(rs + [e]) == Rendered(rs) + Line(e)
  {
    RenderedAppend(rs, [e]);
    assert Rendered([e]) == Line(e) + Rendered([]);
  }

  /** The loop at the end of `main`: the string grows by one line per result, in the order
      the results arrive. */
  method RenderOutput(results: seq<Entry>) returns (output: string)
    ensures output == Rendered(results)
  {
    output := "";
    for i := 0 to |results|
      invariant output == Rendered(results[..i])
    {
      var url, result := results[i].url, results[i].outcome;
      var line: string;
      match result {
        case Ok(title) =>
          line := "[" + title + "](" + url + ")\n";
        case Err(err) =>
          line := "[" + err + "](" + url + ")\n";
      }
      assert line == Line(results[i]);
      LinesAppend(results[..i], results[i]);
      assert results[..i + 1] == results[..i] + [results[i]];
      output := output + line;
    }
    assert results[..|results|] == results;
  }

  /** With no newline in any text or url, the output has exactly one line per result. */
  lemma {:induction false} LineCount(rs: seq<Entry>)
    requires forall k :: 0 <= k < |rs| ==> '\n' !in Text(rs[k].outcome) && '\n' !in rs[k].url
    ensures Occurrences(Rendered(rs), '\n') == |rs|
  {
    if rs != [] {
      var t, u := Text(rs[0].outcome), rs[0].url;
      var l := Link(t, u);
      OccurrencesConcat(Line(rs[0]), Rendered(rs[1..]), '\n');
      OccurrencesConcat(l, "\n", '\n');
      OccurrencesConcat("[" + t + "](", u + ")", '\n');
      OccurrencesConcat("[" + t, "](", '\n');
      OccurrencesConcat("[", t, '\n');
      OccurrencesConcat(u, ")", '\n');
      assert l == ("[" + t + "](") + (u + ")");
      LineCount(rs[1..]);
    }
  }

  /** Without the condition on ']' the round trip fails: when a title is a ']' b, with no ']' in
      a and b not starting with '(', the line "[a]b](u)" holds no link, and the url is lost. */
  lemma BracketInTitleLosesUrl(a: string, b: string, u: string)
    requires ']' !in a && b != [] && b[0] != '('
    requires '[' !in a && '[' !in b && '[' !in u
    ensures ExtractUrls(Line(Entry(u, Ok(a + "]" + b)))) == []
  {
    var t := a + "]" + b;
    var out := Line(Entry(u, Ok(t)));
    var rest := t + "](" + u + ")\n";
    assert out == "[" + rest;
    assert forall q :: 1 <= q <= |a| ==> out[q] == a[q - 1];
    assert out[|a| + 1] == ']' && out[|a| + 2] == b[0];
    assert FindChar(out, ']', 1) == |a| + 1;
    assert MatchAt(out, 0).None?;
    assert Scan(out, 0) == Scan(out, 1);
    ExtractAfterPrefix("[", rest);
    assert '[' !in rest;
    UrlsBoundedByBrackets(rest);
  }

  /** Round trip: scanning the output for links gives back the urls, in order, when no
      text holds ']' and every url is non-empty without ')'. */
  lemma {:induction false} RenderRoundTrip(rs: seq<Entry>)
    requires forall k :: 0 <= k < |rs| ==>
      ']' !in Text(rs[k].outcome) && rs[k].url != [] && ')' !in rs[k].url
    ensures ExtractUrls(Rendered(rs)) == Urls(rs)
  {
    if rs == [] {
      assert ExtractUrls("") == [];
    } else {
      var t, u := Text(rs[0].outcome), rs[0].url;
      var rest := Rendered(rs[1..]);
      assert Rendered(rs) == Link(t, u) + ("\n" + rest);
      LinkThenRest(t, u, "\n" + rest);
      SkipChar('\n', rest);
      RenderRoundTrip(rs[1..]);
      assert Urls(rs) == [u] + Urls(rs[1..]);
    }
  }
}
