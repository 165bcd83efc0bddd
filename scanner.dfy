/** The link-destination scanner: every match of the pattern `\[[^\]]*\]\(([^)]+)\)`,
    leftmost-first and non-overlapping, written as a left-to-right scan over the text. */
module LinkScanner {
  import opened Wrappers
  import opened Strings

  /** One match, by position in the text: `start` holds '[', `close` holds the ']' that
      ends the label, and `stop` is one past the ')' that ends the destination. */
  datatype Match = Match(start: nat, close: nat, stop: nat)
  {
    function ShiftBy(d: nat): Match
    {
      Match(start + d, close + d, stop + d)
    }
  }

  /** The positions of `m` are in order and inside the text, with room for a destination. */
  predicate InText(text: string, m: Match)
  {
    m.start < m.close && m.close + 3 < m.stop <= |text|
  }

  /** `m` is a match of the pattern in `text`: '[' then a label without ']', then "](",
      then a non-empty destination without ')', then ')'. The negated classes accept every
      other character, newlines, '[' and '(' included. */
  ghost predicate IsMatch(text: string, m: Match)
  {
    && InText(text, m)
    && text[m.start] == '['
    && text[m.close] == ']'
    && text[m.close + 1] == '('
    && text[m.stop - 1] == ')'
    && (forall q :: m.start < q < m.close ==> text[q] != ']')
    && (forall q :: m.close + 1 < q < m.stop - 1 ==> text[q] != ')')
  }

  /** Some match of the pattern begins at position `p`. */
  ghost predicate LinkStartsAt(text: string, p: nat)
  {
    exists m: Match :: m.start == p && IsMatch(text, m)
  }

  /** The visible text between the brackets (matched by `[^\]]*`, discarded by the source). */
  function Label(text: string, m: Match): string
    requires InText(text, m)
  {
    text[m.start + 1..m.close]
  }

  /** The destination, the pattern's capture group 1. */
  function Dest(text: string, m: Match): (d: string)
    requires InText(text, m)
    ensures IsMatch(text, m) ==> d != [] && ')' !in d
  {
    var d := text[m.close + 2..m.stop - 1];
    assert forall i :: 0 <= i < |d| ==> d[i] == text[m.close + 2 + i];
    d
  }

  /** A match spans exactly "[" + label + "](" + destination + ")". */
  lemma MatchShape(text: string, m: Match)
    requires IsMatch(text, m)
    ensures text[m.start..m.stop] == "[" + Label(text, m) + "](" + Dest(text, m) + ")"
    ensures ']' !in Label(text, m)
  {
    var l, d := Label(text, m), Dest(text, m);
    var w := "[" + l + "](" + d + ")";
    assert |w| == m.stop - m.start;
    forall i | 0 <= i < |w| ensures w[i] == text[m.start + i] {
      if i == 0 {
      } else if i <= |l| {
        assert w[i] == l[i - 1];
      } else if i <= |l| + 2 {
      } else if i < |w| - 1 {
        assert w[i] == d[i - |l| - 3];
      }
    }
    assert forall i :: 0 <= i < |l| ==> l[i] == text[m.start + 1 + i];
  }

  /** The first position at or after `from` that holds `c`, or |text| when there is none. */
  function FindChar(text: string, c: char, from: nat): (k: nat)
    requires from <= |text|
    ensures from <= k <= |text|
    ensures k < |text| ==> text[k] == c
    ensures forall q :: from <= q < k ==> text[q] != c
    decreases |text| - from
  {
    if from == |text| || text[from] == c then from else FindChar(text, c, from + 1)
  }

  /** The regex's attempt at one start position: the label runs to the first ']', the next
      character must be '(', and the destination runs to the first ')' and is non-empty. */
  function MatchAt(text: string, p: nat): (r: Option<Match>)
    ensures r.Some? ==> r.value.start == p && IsMatch(text, r.value)
  {
    if p < |text| && text[p] == '[' then
      var close := FindChar(text, ']', p + 1);
      if close + 1 < |text| && text[close + 1] == '(' then
        var paren := FindChar(text, ')', close + 2);
        if close + 2 < paren < |text| then Some(Match(p, close, paren + 1)) else None
      else None
    else None
  }

  /** The attempt fails only where no match begins. */
  lemma MatchAtComplete(text: string, p: nat)
    ensures MatchAt(text, p).None? <==> !LinkStartsAt(text, p)
  {
    if LinkStartsAt(text, p) {
      var m: Match :| m.start == p && IsMatch(text, m);
      var close := FindChar(text, ']', p + 1);
      assert close == m.close;
      var paren := FindChar(text, ')', close + 2);
      assert paren == m.stop - 1;
    }
  }

  /** Successive matches from position `from` on: a failed attempt retries one position
      further, a match resumes just after its ')'. */
  function Scan(text: string, from: nat): (ms: seq<Match>)
    ensures forall k :: 0 <= k < |ms| ==> InText(text, ms[k]) && from <= ms[k].start
    decreases |text| - from
  {
    if |text| <= from then []
    else match MatchAt(text, from)
      case Some(m) => [m] + Scan(text, m.stop)
      case None => Scan(text, from + 1)
  }

  /** The destinations of `ms`, in order. */
  function Dests(text: string, ms: seq<Match>): (ds: seq<string>)
    requires forall k :: 0 <= k < |ms| ==> InText(text, ms[k])
    ensures |ds| == |ms|
    ensures forall k {:trigger ds[k]} :: 0 <= k < |ms| ==> ds[k] == Dest(text, ms[k])
  {
    if ms == [] then [] else [Dest(text, ms[0])] + Dests(text, ms[1..])
  }

  /** `extract_urls`: the captured destinations of all matches, in order. */
  function ExtractUrls(text: string): (urls: seq<string>)
    ensures forall k :: 0 <= k < |urls| ==> urls[k] != [] && ')' !in urls[k]
  {
    ScanIsLeftmost(text, 0);
    Dests(text, Scan(text, 0))
  }

  // ----- The leftmost-first, non-overlapping semantics, stated without a search -----

  /** Where the k-th stretch of unmatched text begins: `from` before the first match,
      otherwise just after match k-1. */
  function GapStart(from: nat, ms: seq<Match>, k: nat): nat
    requires k <= |ms|
  {
    if k == 0 then from else ms[k - 1].stop
  }

  /** Where the k-th stretch of unmatched text ends: at match k, or at the end of the text. */
  function GapEnd(text: string, ms: seq<Match>, k: nat): nat
    requires k <= |ms|
  {
    if k == |ms| then |text| else ms[k].start
  }

  /** `ms` is the answer of a leftmost-first, non-overlapping search from `from`: each is a
      match, they come in order without overlapping, and no match begins at any position
      the search passed over between them. */
  ghost predicate LeftmostMatches(text: string, from: nat, ms: seq<Match>)
  {
    && (forall k :: 0 <= k < |ms| ==> IsMatch(text, ms[k]))
    && (forall k :: 0 <= k <= |ms| ==> GapStart(from, ms, k) <= GapEnd(text, ms, k))
    && (forall k, p :: 0 <= k <= |ms| && GapStart(from, ms, k) <= p < GapEnd(text, ms, k)
          ==> !LinkStartsAt(text, p))
  }

  /** Two matches that begin at the same position are the same match. */
  lemma MatchUnique(text: string, m1: Match, m2: Match)
    requires IsMatch(text, m1) && IsMatch(text, m2) && m1.start == m2.start
    ensures m1 == m2
  {
  }

  /** A position where no match begins can be added in front of a leftmost answer. */
  lemma LeftmostSkip(text: string, from: nat, ms: seq<Match>)
    requires from < |text| && !LinkStartsAt(text, from)
    requires LeftmostMatches(text, from + 1, ms)
    ensures LeftmostMatches(text, from, ms)
  {
    forall k | 0 <= k <= |ms|
      ensures GapStart(from, ms, k) <= GapEnd(text, ms, k)
    {
      assert GapStart(from + 1, ms, k) <= GapEnd(text, ms, k);
    }
    forall k, p | 0 <= k <= |ms| && GapStart(from, ms, k) <= p < GapEnd(text, ms, k)
      ensures !LinkStartsAt(text, p)
    {
      if p != from {
        assert GapStart(from + 1, ms, k) <= p;
      }
    }
  }

  /** A match that begins at `from`, followed by a leftmost answer from its end. */
  lemma LeftmostCons(text: string, from: nat, m: Match, rest: seq<Match>)
    requires IsMatch(text, m) && m.start == from
    requires LeftmostMatches(text, m.stop, rest)
    ensures LeftmostMatches(text, from, [m] + rest)
  {
    var ms := [m] + rest;
    forall k | 1 <= k <= |ms|
      ensures GapStart(from, ms, k) == GapStart(m.stop, rest, k - 1)
      ensures GapEnd(text, ms, k) == GapEnd(text, rest, k - 1)
    {
    }
    forall k | 0 <= k <= |ms|
      ensures GapStart(from, ms, k) <= GapEnd(text, ms, k)
    {
      if k != 0 {
        assert GapStart(m.stop, rest, k - 1) <= GapEnd(text, rest, k - 1);
      }
    }
    forall k, p | 0 <= k <= |ms| && GapStart(from, ms, k) <= p < GapEnd(text, ms, k)
      ensures !LinkStartsAt(text, p)
    {
      assert k != 0;
      assert GapStart(m.stop, rest, k - 1) <= p < GapEnd(text, rest, k - 1);
    }
  }

  /** A leftmost answer from a position where no match begins is one from the next position. */
  lemma LeftmostUnskip(text: string, from: nat, ms: seq<Match>)
    requires from < |text| && !LinkStartsAt(text, from)
    requires LeftmostMatches(text, from, ms)
    ensures LeftmostMatches(text, from + 1, ms)
  {
    if ms != [] {
      assert IsMatch(text, ms[0]);
      assert ms[0].start != from;
    }
    forall k | 0 <= k <= |ms|
      ensures GapStart(from + 1, ms, k) <= GapEnd(text, ms, k)
    {
      assert GapStart(from, ms, k) <= GapEnd(text, ms, k);
    }
    forall k, p | 0 <= k <= |ms| && GapStart(from + 1, ms, k) <= p < GapEnd(text, ms, k)
      ensures !LinkStartsAt(text, p)
    {
      assert GapStart(from, ms, k) <= p;
    }
  }

  /** A leftmost answer from a position where a match begins starts with that match. */
  lemma LeftmostUncons(text: string, from: nat, ms: seq<Match>, m: Match)
    requires IsMatch(text, m) && m.start == from
    requires LeftmostMatches(text, from, ms)
    ensures ms != [] && ms[0] == m
    ensures LeftmostMatches(text, m.stop, ms[1..])
  {
    assert LinkStartsAt(text, from);
    assert GapStart(from, ms, 0) <= from;
    assert !(GapStart(from, ms, 0) <= from < GapEnd(text, ms, 0));
    MatchUnique(text, m, ms[0]);
    var rest := ms[1..];
    forall k | 0 <= k <= |rest|
      ensures GapStart(m.stop, rest, k) == GapStart(from, ms, k + 1)
      ensures GapEnd(text, rest, k) == GapEnd(text, ms, k + 1)
    {
    }
    forall k | 0 <= k < |rest|
      ensures IsMatch(text, rest[k])
    {
      assert rest[k] == ms[k + 1];
    }
    forall k | 0 <= k <= |rest|
      ensures GapStart(m.stop, rest, k) <= GapEnd(text, rest, k)
    {
      assert GapStart(from, ms, k + 1) <= GapEnd(text, ms, k + 1);
    }
    forall k, p | 0 <= k <= |rest| && GapStart(m.stop, rest, k) <= p < GapEnd(text, rest, k)
      ensures !LinkStartsAt(text, p)
    {
      assert GapStart(from, ms, k + 1) <= p < GapEnd(text, ms, k + 1);
    }
  }

  /** The scan finds exactly the leftmost-first matches. */
  lemma {:induction false} ScanIsLeftmost(text: string, from: nat)
    requires from <= |text|
    ensures LeftmostMatches(text, from, Scan(text, from))
    decreases |text| - from
  {
    if from == |text| {
      assert Scan(text, from) == [];
    } else {
      match MatchAt(text, from)
      case None =>
        MatchAtComplete(text, from);
        ScanIsLeftmost(text, from + 1);
        LeftmostSkip(text, from, Scan(text, from + 1));
      case Some(m) =>
        ScanIsLeftmost(text, m.stop);
        LeftmostCons(text, from, m, Scan(text, m.stop));
    }
  }

  /** Unfolds `GapStart` and `GapEnd` at 0: the stretch before the first match runs from
      `from` to that match's start. */
  lemma FirstGap(text: string, from: nat, ms: seq<Match>)
    ensures |ms| > 0 ==> GapStart(from, ms, 0) == from && GapEnd(text, ms, 0) == ms[0].start
  {
  }

  /** Any leftmost-first answer is the scan's answer: the semantics determine the result. */
  lemma {:induction false} LeftmostIsScan(text: string, from: nat, ms: seq<Match>)
    requires from <= |text|
    requires LeftmostMatches(text, from, ms)
    ensures ms == Scan(text, from)
    decreases |text| - from, 1
  {
    if from == |text| {
      FirstGap(text, from, ms);
    } else if MatchAt(text, from).None? {
      LeftmostIsScanSkip(text, from, ms);
    } else {
      LeftmostIsScanTake(text, from, ms, MatchAt(text, from).value);
    }
  }

  /** `LeftmostIsScan` where no match begins at `from`. */
  lemma {:induction false} LeftmostIsScanSkip(text: string, from: nat, ms: seq<Match>)
    requires from < |text| && MatchAt(text, from).None?
    requires LeftmostMatches(text, from, ms)
    ensures ms == Scan(text, from)
    decreases |text| - from, 0
  {
    MatchAtComplete(text, from);
    LeftmostUnskip(text, from, ms);
    LeftmostIsScan(text, from + 1, ms);
    ScanSkips(text, from);
  }

  /** `LeftmostIsScan` where a match begins at `from`. */
  lemma {:induction false} LeftmostIsScanTake(text: string, from: nat, ms: seq<Match>, m: Match)
    requires from < |text| && MatchAt(text, from) == Some(m)
    requires LeftmostMatches(text, from, ms)
    ensures ms == Scan(text, from)
    decreases |text| - from, 0
  {
    LeftmostUncons(text, from, ms, m);
    LeftmostIsScan(text, m.stop, ms[1..]);
    ScanTakes(text, from, m);
    assert ms == [m] + ms[1..];
  }

  /** Unfolds one step of `Scan` where a match begins. */
  lemma ScanTakes(text: string, from: nat, m: Match)
    requires from < |text| && MatchAt(text, from) == Some(m)
    ensures Scan(text, from) == [m] + Scan(text, m.stop)
  {
  }

  /** Unfolds one step of `Scan` where no match begins. */
  lemma ScanSkips(text: string, from: nat)
    requires from < |text| && MatchAt(text, from).None?
    ensures Scan(text, from) == Scan(text, from + 1)
  {
  }

  // ----- Properties of extract_urls -----

  /** `extract_urls` returns the empty sequence exactly when no match begins anywhere. */
  lemma NoLinkNoUrls(text: string)
    ensures ExtractUrls(text) == [] <==> forall p :: 0 <= p < |text| ==> !LinkStartsAt(text, p)
  {
    ScanIsLeftmost(text, 0);
    var ms := Scan(text, 0);
    if ms == [] {
      assert GapStart(0, ms, 0) == 0 && GapEnd(text, ms, 0) == |text|;
    }
    if forall p :: 0 <= p < |text| ==> !LinkStartsAt(text, p) {
      LeftmostIsScan(text, 0, []);
    }
  }

  /** Each destination comes from a piece "[" + label + "](" + destination + ")" of the text
      with no ']' in the label; the pieces come left to right and do not overlap. */
  lemma UrlsComeFromLinks(text: string)
    ensures var ms := Scan(text, 0);
      && |ms| == |ExtractUrls(text)|
      && (forall k :: 0 <= k < |ms| ==>
            && ms[k].stop <= |text|
            && text[ms[k].start..ms[k].stop] == "[" + Label(text, ms[k]) + "](" + ExtractUrls(text)[k] + ")"
            && ']' !in Label(text, ms[k]))
      && (forall k :: 0 < k < |ms| ==> ms[k - 1].stop <= ms[k].start)
  {
    var ms := Scan(text, 0);
    ScanIsLeftmost(text, 0);
    forall k | 0 <= k < |ms|
      ensures text[ms[k].start..ms[k].stop] == "[" + Label(text, ms[k]) + "](" + ExtractUrls(text)[k] + ")"
      ensures ']' !in Label(text, ms[k])
    {
      MatchShape(text, ms[k]);
    }
    forall k | 0 < k < |ms|
      ensures ms[k - 1].stop <= ms[k].start
    {
      assert GapStart(0, ms, k) <= GapEnd(text, ms, k);
    }
  }

  /** Each match the scan takes from `from` on uses up its own '[' of the text from there. */
  lemma {:induction false} ScanBound(text: string, from: nat)
    requires from <= |text|
    ensures |Scan(text, from)| <= Occurrences(text[from..], '[')
    decreases |text| - from
  {
    if from < |text| {
      assert text[from..][1..] == text[from + 1..];
      match MatchAt(text, from)
      case None =>
        ScanBound(text, from + 1);
      case Some(m) =>
        ScanBound(text, m.stop);
        OccurrencesOfSuffix(text, from + 1, m.stop, '[');
    }
  }

  /** Matches do not share their '[': there are never more destinations than '[' characters. */
  lemma UrlsBoundedByBrackets(text: string)
    ensures |ExtractUrls(text)| <= Occurrences(text, '[')
  {
    ScanBound(text, 0);
    assert text[0..] == text;
  }

  // ----- What the scan finds from a position depends only on the text from there on -----

  /** `b` is the part of `t` from position `d` on. */
  ghost predicate SuffixAt(t: string, d: nat, b: string)
  {
    |t| == d + |b| && forall i :: 0 <= i < |b| ==> b[i] == t[d + i]
  }

  /** Every match moved `d` positions on. */
  function ShiftAll(ms: seq<Match>, d: nat): (r: seq<Match>)
    ensures |r| == |ms| && forall k :: 0 <= k < |ms| ==> r[k] == ms[k].ShiftBy(d)
  {
    seq(|ms|, k requires 0 <= k < |ms| => ms[k].ShiftBy(d))
  }

  /** A match in the suffix `b`, moved by `d`, is a match in the whole text, and back. */
  lemma MatchInSuffix(t: string, d: nat, b: string, m: Match)
    requires SuffixAt(t, d, b)
    ensures IsMatch(t, m.ShiftBy(d)) <==> IsMatch(b, m)
  {
    var m' := m.ShiftBy(d);
    if IsMatch(b, m) {
      forall q | m'.start < q < m'.close ensures t[q] != ']' {
        assert b[q - d] == t[q];
      }
      forall q | m'.close + 1 < q < m'.stop - 1 ensures t[q] != ')' {
        assert b[q - d] == t[q];
      }
      assert b[m.start] == t[m'.start] && b[m.close] == t[m'.close];
      assert b[m.close + 1] == t[m'.close + 1] && b[m.stop - 1] == t[m'.stop - 1];
    }
    if IsMatch(t, m') {
      assert b[m.start] == t[m'.start] && b[m.close] == t[m'.close];
      assert b[m.close + 1] == t[m'.close + 1] && b[m.stop - 1] == t[m'.stop - 1];
    }
  }

  /** A match begins at d + q in `t` exactly when one begins at `q` in its suffix `b`. */
  lemma LinkStartsInSuffix(t: string, d: nat, b: string, q: nat)
    requires SuffixAt(t, d, b)
    ensures LinkStartsAt(t, d + q) <==> LinkStartsAt(b, q)
  {
    if LinkStartsAt(t, d + q) {
      var m': Match :| m'.start == d + q && IsMatch(t, m');
      var m := Match(q, m'.close - d, m'.stop - d);
      assert m.ShiftBy(d) == m';
      MatchInSuffix(t, d, b, m);
    }
    if LinkStartsAt(b, q) {
      var m: Match :| m.start == q && IsMatch(b, m);
      MatchInSuffix(t, d, b, m);
    }
  }

  /** Moving the matches moves the stretches between them by the same distance. */
  lemma GapsShifted(t: string, d: nat, b: string, p: nat, ms: seq<Match>)
    requires |t| == d + |b|
    ensures forall k :: 0 <= k <= |ms| ==>
      GapStart(d + p, ShiftAll(ms, d), k) == d + GapStart(p, ms, k)
      && GapEnd(t, ShiftAll(ms, d), k) == d + GapEnd(b, ms, k)
  {
  }

  /** A leftmost answer in the suffix, moved, is the leftmost answer in the whole text. */
  lemma LeftmostInSuffix(t: string, d: nat, b: string, p: nat, ms: seq<Match>)
    requires SuffixAt(t, d, b) && LeftmostMatches(b, p, ms)
    ensures LeftmostMatches(t, d + p, ShiftAll(ms, d))
  {
    var ms' := ShiftAll(ms, d);
    forall k | 0 <= k < |ms'| ensures IsMatch(t, ms'[k]) {
      MatchInSuffix(t, d, b, ms[k]);
    }
    GapsShifted(t, d, b, p, ms);
    forall k, q | 0 <= k <= |ms'| && GapStart(d + p, ms', k) <= q < GapEnd(t, ms', k)
      ensures !LinkStartsAt(t, q)
    {
      assert GapStart(p, ms, k) <= q - d < GapEnd(b, ms, k);
      LinkStartsInSuffix(t, d, b, q - d);
    }
    forall k | 0 <= k <= |ms'|
      ensures GapStart(d + p, ms', k) <= GapEnd(t, ms', k)
    {
      assert GapStart(p, ms, k) <= GapEnd(b, ms, k);
    }
  }

  /** A slice of the suffix is the same slice of the whole text, moved by `d`. */
  lemma SliceInSuffix(t: string, d: nat, b: string, i: nat, j: nat)
    requires SuffixAt(t, d, b) && i <= j <= |b|
    ensures t[d + i..d + j] == b[i..j]
  {
    forall k | i <= k < j ensures t[d + i..d + j][k - i] == b[k] {
      assert b[k] == t[d + k];
    }
  }

  /** Moved matches capture the same destinations in the whole text as in its suffix. */
  lemma {:induction false} DestsShifted(t: string, d: nat, b: string, ms: seq<Match>)
    requires SuffixAt(t, d, b)
    requires forall k :: 0 <= k < |ms| ==> InText(b, ms[k])
    ensures forall k :: 0 <= k < |ms| ==> InText(t, ShiftAll(ms, d)[k])
    ensures Dests(t, ShiftAll(ms, d)) == Dests(b, ms)
  {
    var ms' := ShiftAll(ms, d);
    forall k | 0 <= k < |ms|
      ensures InText(t, ms'[k]) && Dest(t, ms'[k]) == Dest(b, ms[k])
    {
      var m, m' := ms[k], ms'[k];
      SliceInSuffix(t, d, b, m.close + 2, m.stop - 1);
    }
  }

  /** The destinations found after a prefix `a` of `a + b` are those of `b` alone. */
  lemma ExtractAfterPrefix(a: string, b: string)
    ensures Dests(a + b, Scan(a + b, |a|)) == ExtractUrls(b)
  {
    var t := a + b;
    assert SuffixAt(t, |a|, b);
    var ms := Scan(b, 0);
    ScanIsLeftmost(b, 0);
    LeftmostInSuffix(t, |a|, b, 0, ms);
    LeftmostIsScan(t, |a|, ShiftAll(ms, |a|));
    DestsShifted(t, |a|, b, ms);
  }

  /** The destinations of a leading match and the matches after it. */
  lemma DestsCons(text: string, m: Match, rest: seq<Match>)
    requires InText(text, m) && forall k :: 0 <= k < |rest| ==> InText(text, rest[k])
    ensures Dests(text, [m] + rest) == [Dest(text, m)] + Dests(text, rest)
  {
    assert ([m] + rest)[1..] == rest;
  }

  /** The inline-link shape "[text](url)". */
  function Link(text: string, url: string): string
  {
    "[" + text + "](" + url + ")"
  }

  /** The attempt at position 0 of a link matches exactly that link and captures its url. */
  lemma LinkMatchAt(t: string, u: string, rest: string)
    requires ']' !in t && u != [] && ')' !in u
    ensures MatchAt(Link(t, u) + rest, 0) == Some(Match(0, |t| + 1, |Link(t, u)|))
    ensures Dest(Link(t, u) + rest, Match(0, |t| + 1, |Link(t, u)|)) == u
  {
    var s := Link(t, u) + rest;
    var n := |t|;
    assert forall q :: 1 <= q <= n ==> s[q] == t[q - 1];
    assert s[n + 1] == ']' && s[n + 2] == '(';
    assert forall q :: n + 3 <= q < n + 3 + |u| ==> s[q] == u[q - n - 3];
    assert s[n + 3 + |u|] == ')';
    assert FindChar(s, ']', 1) == n + 1;
    assert FindChar(s, ')', n + 3) == n + 3 + |u|;
    assert s[n + 3..n + 3 + |u|] == u;
  }

  /** A link whose text has no ']' and whose url is non-empty without ')' is found first,
      and the scan goes on after it as on the rest alone. */
  lemma LinkThenRest(t: string, u: string, rest: string)
    requires ']' !in t && u != [] && ')' !in u
    ensures ExtractUrls(Link(t, u) + rest) == [u] + ExtractUrls(rest)
  {
    var l := Link(t, u);
    var s := l + rest;
    var m := Match(0, |t| + 1, |l|);
    LinkMatchAt(t, u, rest);
    var tail := Scan(s, |l|);
    assert Scan(s, 0) == [m] + tail;
    DestsCons(s, m, tail);
    ExtractAfterPrefix(l, rest);
  }

  /** A leading character other than '[' starts no match and is passed over. */
  lemma SkipChar(c: char, rest: string)
    requires c != '['
    ensures ExtractUrls([c] + rest) == ExtractUrls(rest)
  {
    var s := [c] + rest;
    assert MatchAt(s, 0) == None;
    assert Scan(s, 0) == Scan(s, 1);
    ExtractAfterPrefix([c], rest);
  }
}
