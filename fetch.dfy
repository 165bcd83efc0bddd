/** The fetch worker: `process_url` as a decision over what the network returned, and the
    whitespace trim `extract_title` applies to the text of the first title element. The
    request itself and the HTML parser stay outside: the first is an input value, the
    second a function parameter. */
module FetchWorker {
  import opened Wrappers

  // ----- Rust's `str::trim` -----

  /** The code point ranges of the Unicode White_Space property, low and high included. */
  const WhiteSpaceRanges: seq<(int, int)> := [
    (0x09, 0x0D), (0x20, 0x20), (0x85, 0x85), (0xA0, 0xA0), (0x1680, 0x1680),
    (0x2000, 0x200A), (0x2028, 0x2029), (0x202F, 0x202F), (0x205F, 0x205F), (0x3000, 0x3000)
  ]

  /** `n` lies in one of `ranges`. */
  predicate InRanges(n: int, ranges: seq<(int, int)>)
  {
    ranges != [] && (ranges[0].0 <= n <= ranges[0].1 || InRanges(n, ranges[1..]))
  }

  /** `char::is_whitespace`: the character has the Unicode White_Space property. */
  predicate IsWhitespace(c: char)
  {
    InRanges(c as int, WhiteSpaceRanges)
  }

  /** `str::trim_start`: drops the leading whitespace and keeps the rest. */
  function TrimStart(s: string): (r: string)
    ensures |r| <= |s| && r == s[|s| - |r|..]
    ensures forall k :: 0 <= k < |s| - |r| ==> IsWhitespace(s[k])
    ensures r != [] ==> !IsWhitespace(r[0])
  {
    if s != [] && IsWhitespace(s[0]) then TrimStart(s[1..]) else s
  }

  /** `str::trim_end`: drops the trailing whitespace and keeps the rest. */
  function TrimEnd(s: string): (r: string)
    ensures |r| <= |s| && r == s[..|r|]
    ensures forall k :: |r| <= k < |s| ==> IsWhitespace(s[k])
    ensures r != [] ==> !IsWhitespace(r[|r| - 1])
  {
    if s != [] && IsWhitespace(s[|s| - 1]) then TrimEnd(s[..|s| - 1]) else s
  }

  /** `s[i..j]` is a trimmed form of `s`: everything outside it is whitespace and, unless it
      is empty, it begins and ends with a character that is not. */
  ghost predicate TrimmedAt(s: string, i: nat, j: nat)
  {
    && i <= j <= |s|
    && (forall k :: 0 <= k < i ==> IsWhitespace(s[k]))
    && (forall k :: j <= k < |s| ==> IsWhitespace(s[k]))
    && (i < j ==> !IsWhitespace(s[i]) && !IsWhitespace(s[j - 1]))
  }

  /** `str::trim`: the string without its leading and trailing whitespace. It is empty exactly
      when `s` is whitespace only, and otherwise begins and ends with a character that is not. */
  function Trim(s: string): (r: string)
    ensures r == [] <==> forall k :: 0 <= k < |s| ==> IsWhitespace(s[k])
    ensures r != [] ==> !IsWhitespace(r[0]) && !IsWhitespace(r[|r| - 1])
  {
    var a := TrimStart(s);
    assert a == [] ==> forall k :: 0 <= k < |s| ==> IsWhitespace(s[k]);
    TrimEnd(a)
  }

  /** `Trim(s)` is the slice of `s` that starts at the returned position, and it is a trimmed
      form of `s`. */
  lemma TrimSlice(s: string) returns (i: nat)
    ensures TrimmedAt(s, i, i + |Trim(s)|) && Trim(s) == s[i..i + |Trim(s)|]
  {
    var a := TrimStart(s);
    var r := TrimEnd(a);
    i := |s| - |a|;
    SliceOfSuffix(s, a, r, i);
  }

  /** A prefix `r` of the suffix `a` of `s` that starts at `i` is a slice of `s`. */
  lemma SliceOfSuffix(s: string, a: string, r: string, i: nat)
    requires i <= |s| && a == s[i..] && |r| <= |a| && r == a[..|r|]
    ensures r == s[i..i + |r|]
    ensures forall k :: i + |r| <= k < |s| ==> s[k] == a[k - i]
    ensures r != [] ==> s[i] == r[0] && s[i + |r| - 1] == r[|r| - 1]
  {
  }

  /** The trimmed slice is unique: whichever way `s` splits into whitespace, a core that
      does not begin or end with whitespace, and whitespace, `Trim` returns that core. */
  lemma TrimUnique(s: string, i: nat, j: nat)
    requires TrimmedAt(s, i, j)
    ensures Trim(s) == s[i..j]
  {
    var r := Trim(s);
    var i' := TrimSlice(s);
    var j' := i' + |r|;
    if i < j {
      assert !IsWhitespace(s[i]) && !IsWhitespace(s[j - 1]);
      assert r != [];
      assert !IsWhitespace(s[i']) && !IsWhitespace(s[j' - 1]);
    } else {
      forall k | 0 <= k < |s| ensures IsWhitespace(s[k]) {
        if k < i {
        }
      }
    }
  }

  /** Trimming twice gives what trimming once gives. */
  lemma TrimIdempotent(s: string)
    ensures Trim(Trim(s)) == Trim(s)
  {
    var r := Trim(s);
    assert TrimmedAt(r, 0, |r|);
    TrimUnique(r, 0, |r|);
  }

  // ----- `process_url` -----

  /** Rust's `Result<String, String>`: the page title, or the reason it could not be had. */
  datatype Outcome = Ok(title: string) | Err(reason: string)

  /** The pair `process_url` returns: the url it was given and its outcome. */
  datatype Entry = Entry(url: string, outcome: Outcome)

  /** What reading the response body (`resp.text()`) gave. */
  datatype BodyRead = Body(text: string) | ReadError

  /** What the request (`client.get(url).send()`) gave: a transport error with its message
      text, or a response with its status code, the status code's display text (such as
      "404 Not Found") and the result of reading the body. */
  datatype Fetched =
    | TransportError(message: string)
    | Response(status: nat, statusDisplay: string, body: BodyRead)

  /** `StatusCode::is_success`: the status is in the 2xx class. */
  predicate IsSuccess(status: nat)
  {
    200 <= status <= 299
  }

  const BodyReadError: string := "BODY READ ERROR"
  const NoTitle: string := "NO TITLE"

  /** `extract_title`: the trimmed text of the first title element, if the document has one.
      `firstTitleText` stands for the HTML parser and the "title" selector. */
  function ExtractTitle(firstTitleText: string -> Option<string>, html: string): (t: Option<string>)
    ensures t.None? <==> firstTitleText(html).None?
    ensures t.Some? ==> t.value == Trim(firstTitleText(html).value)
  {
    match firstTitleText(html)
    case None => None
    case Some(raw) => Some(Trim(raw))
  }

  /** `process_url` with the fetch already done. The checks come in a fixed order: transport
      error, then status, then body read, then title. */
  function ProcessUrl(firstTitleText: string -> Option<string>, url: string, fetched: Fetched): (e: Entry)
    ensures e.url == url
    ensures fetched.TransportError? ==> e.outcome == Err(fetched.message)
    ensures fetched.Response? && !IsSuccess(fetched.status)
      ==> e.outcome == Err("HTTP " + fetched.statusDisplay)
    ensures fetched.Response? && IsSuccess(fetched.status) && fetched.body.ReadError?
      ==> e.outcome == Err(BodyReadError)
    ensures fetched.Response? && IsSuccess(fetched.status) && fetched.body.Body?
      && firstTitleText(fetched.body.text).None?
      ==> e.outcome == Err(NoTitle)
    ensures e.outcome.Ok? <==>
      && fetched.Response? && IsSuccess(fetched.status) && fetched.body.Body?
      && firstTitleText(fetched.body.text).Some?
    ensures e.outcome.Ok? ==> e.outcome.title == Trim(firstTitleText(fetched.body.text).value)
  {
    match fetched
    case TransportError(message) => Entry(url, Err(message))
    case Response(status, statusDisplay, body) =>
      if !IsSuccess(status) then Entry(url, Err("HTTP " + statusDisplay))
      else match body
        case ReadError => Entry(url, Err(BodyReadError))
        case Body(text) =>
          match ExtractTitle(firstTitleText, text)
          case Some(t) => Entry(url, Ok(t))
          case None => Entry(url, Err(NoTitle))
  }

  /** A failed status decides the outcome on its own: the body and the parser play no part. */
  lemma FailedStatusIgnoresBody(f1: string -> Option<string>, f2: string -> Option<string>,
                                url: string, status: nat, display: string, b1: BodyRead, b2: BodyRead)
    requires !IsSuccess(status)
    ensures ProcessUrl(f1, url, Response(status, display, b1))
         == ProcessUrl(f2, url, Response(status, display, b2))
  {
  }

  /** A title element whose text is whitespace only gives an empty title, not "NO TITLE". */
  lemma BlankTitleIsEmpty(firstTitleText: string -> Option<string>, url: string, fetched: Fetched)
    requires fetched.Response? && IsSuccess(fetched.status) && fetched.body.Body?
    requires firstTitleText(fetched.body.text).Some?
    requires forall c :: c in firstTitleText(fetched.body.text).value ==> IsWhitespace(c)
    ensures ProcessUrl(firstTitleText, url, fetched).outcome == Ok("")
  {
    var raw := firstTitleText(fetched.body.text).value;
    assert forall k :: 0 <= k < |raw| ==> IsWhitespace(raw[k]) by {
      forall k | 0 <= k < |raw| ensures IsWhitespace(raw[k]) {
        assert raw[k] in raw;
      }
    }
  }

  /** Every failure reason is one of the four the source produces. */
  lemma ErrorReasons(firstTitleText: string -> Option<string>, url: string, fetched: Fetched)
    requires ProcessUrl(firstTitleText, url, fetched).outcome.Err?
    ensures var reason := ProcessUrl(firstTitleText, url, fetched).outcome.reason;
      || (fetched.TransportError? && reason == fetched.message)
      || (fetched.Response? && reason == "HTTP " + fetched.statusDisplay)
      || reason == BodyReadError
      || reason == NoTitle
  {
  }
}
