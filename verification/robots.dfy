/** The robots.txt summary: every line is stripped and classified by the first
    matching directive prefix, and the matching lines contribute their values
    to the allowed paths, the disallowed paths, the sitemaps and the crawl delay.
    Fetching the file and splitting it into lines are inputs. */
module Robots {
  import opened Options
  import opened Seqs
  import opened Text

  const OK_STATUS := 200

  datatype Directive = DisallowRule | AllowRule | SitemapRule | CrawlDelayRule | Other

  /** `s.lower().startswith(p)`, compared character by character. */
  predicate LowerStartsWith(s: string, p: string) {
    |p| <= |s| && forall i :: 0 <= i < |p| ==> LowerChar(s[i]) == p[i]
  }

  lemma LowerStartsWithMeaning(s: string, p: string)
    ensures LowerStartsWith(s, p) <==> StartsWith(Lower(s), p)
  {
    if LowerStartsWith(s, p) {
      assert Lower(s)[..|p|] == p;
    }
  }

  /** The first matching rule wins: `Disallow` and `Allow` are matched
      case-sensitively, `sitemap` and `crawl-delay` after lower-casing. */
  function Classify(line: string): Directive {
    if StartsWith(line, "Disallow") then DisallowRule
    else if StartsWith(line, "Allow") then AllowRule
    else if LowerStartsWith(line, "sitemap") then SitemapRule
    else if LowerStartsWith(line, "crawl-delay") then CrawlDelayRule
    else Other
  }

  /** The `if`/`elif` chain as the source writes it, with `line.lower()`:
      each directive is chosen exactly when its own test passes and every
      earlier test fails. */
  lemma ClassifyChain(line: string)
    ensures Classify(line) == DisallowRule <==> StartsWith(line, "Disallow")
    ensures Classify(line) == AllowRule <==> !StartsWith(line, "Disallow") && StartsWith(line, "Allow")
    ensures Classify(line) == SitemapRule <==>
      !StartsWith(line, "Disallow") && !StartsWith(line, "Allow") && StartsWith(Lower(line), "sitemap")
    ensures Classify(line) == CrawlDelayRule <==>
      && !StartsWith(line, "Disallow") && !StartsWith(line, "Allow")
      && !StartsWith(Lower(line), "sitemap") && StartsWith(Lower(line), "crawl-delay")
  {
    LowerStartsWithMeaning(line, "sitemap");
    LowerStartsWithMeaning(line, "crawl-delay");
  }

  /** `Disallow` and `Allow` lines are recognised in their exact capitalisation. */
  lemma ClassifyExact(rest: string)
    ensures Classify("Disallow" + rest) == DisallowRule
    ensures Classify("Allow" + rest) == AllowRule
  {
    assert "Disallow" <= "Disallow" + rest;
    assert !("Disallow" <= "Allow" + rest) by {
      assert ("Allow" + rest)[0] == 'A';
    }
    assert "Allow" <= "Allow" + rest;
  }

  /** Any other capitalisation of `Disallow` or `Allow` is not a rule. */
  lemma ClassifyCaseSensitive(rest: string)
    ensures Classify("disallow" + rest) == Other
    ensures Classify("ALLOW" + rest) == Other
  {
    assert ("disallow" + rest)[0] == 'd';
    assert ("ALLOW" + rest)[1] == 'L';
  }

  /** A line whose lower-cased form starts with `sitemap` is a sitemap line,
      whatever its capitalisation: it cannot also start with `Disallow` or
      `Allow`. */
  lemma ClassifySitemapAnyCase(line: string)
    requires LowerStartsWith(line, "sitemap")
    ensures Classify(line) == SitemapRule
  {
    assert LowerChar(line[0]) == 's';
  }

  /** Likewise for `crawl-delay`, which no earlier test can claim. */
  lemma ClassifyCrawlDelayAnyCase(line: string)
    requires LowerStartsWith(line, "crawl-delay")
    ensures Classify(line) == CrawlDelayRule
  {
    assert LowerChar(line[0]) == 'c';
    assert !LowerStartsWith(line, "sitemap") by {
      assert LowerChar(line[0]) != 's';
    }
  }

  /** Two spellings of each, as instances of the rules above. */
  lemma ClassifySitemap(rest: string)
    ensures Classify("Sitemap" + rest) == SitemapRule
    ensures Classify("SITEMAP" + rest) == SitemapRule
  {
    LowerStartsWithConcat("Sitemap", "sitemap", rest);
    ClassifySitemapAnyCase("Sitemap" + rest);
    LowerStartsWithConcat("SITEMAP", "sitemap", rest);
    ClassifySitemapAnyCase("SITEMAP" + rest);
  }

  lemma ClassifyCrawlDelay(rest: string)
    ensures Classify("Crawl-delay" + rest) == CrawlDelayRule
    ensures Classify("CRAWL-DELAY" + rest) == CrawlDelayRule
  {
    LowerStartsWithConcat("Crawl-delay", "crawl-delay", rest);
    ClassifyCrawlDelayAnyCase("Crawl-delay" + rest);
    LowerStartsWithConcat("CRAWL-DELAY", "crawl-delay", rest);
    ClassifyCrawlDelayAnyCase("CRAWL-DELAY" + rest);
  }

  /** The prefix test looks at the front of the line only. */
  lemma LowerStartsWithConcat(a: string, p: string, rest: string)
    requires LowerStartsWith(a, p)
    ensures LowerStartsWith(a + rest, p)
  {
    assert forall i :: 0 <= i < |p| ==> (a + rest)[i] == a[i];
  }

  /** A directive line without a colon: splitting it fails with an index error. */
  predicate IsMalformed(line: string) {
    Classify(line) != Other && ':' !in line
  }

  /** The index of the first malformed line, or the number of lines when
      there is none. */
  function FirstMalformed(stripped: seq<string>): (k: nat)
    ensures k <= |stripped|
    ensures k < |stripped| ==> IsMalformed(stripped[k])
    ensures forall j :: 0 <= j < k ==> !IsMalformed(stripped[j])
  {
    FirstWhere(IsMalformed, stripped)
  }

  /** A well-formed line before the first malformed one moves the bound on. */
  lemma FirstMalformedAfter(stripped: seq<string>, i: nat)
    requires i < |stripped| && i <= FirstMalformed(stripped)
    requires !IsMalformed(stripped[i])
    ensures i + 1 <= FirstMalformed(stripped)
  {
  }

  /** `line.split(":")[1]`: the text between the first and the second colon
      (or the end of the line). */
  function SecondField(line: string): (r: string)
    requires ':' in line
    ensures ':' !in r
    ensures exists k :: 0 <= k < |line| && line[k] == ':' && ':' !in line[..k] && r <= line[k + 1..]
                        && (k + 1 + |r| == |line| || line[k + 1 + |r|] == ':')
  {
    var k := IndexOf(line, ':');
    var rest := line[k + 1..];
    var j := IndexOf(rest, ':');
    assert ':' !in line[..k];
    assert ':' !in rest[..j];
    rest[..j]
  }

  /** `line.split(":", 1)[1]`: everything after the first colon. */
  function AfterFirstColon(line: string): (r: string)
    requires ':' in line
    ensures exists k :: 0 <= k < |line| && line[k] == ':' && ':' !in line[..k] && r == line[k + 1..]
  {
    var k := IndexOf(line, ':');
    assert ':' !in line[..k];
    line[k + 1..]
  }

  /** The value a (stripped) directive line contributes: a sitemap line's
      text after its first colon, any other line's second colon-separated
      field, stripped either way. (A line without a colon never reaches here:
      for a directive line the split fails first.) */
  function Value(line: string): (r: string)
    ensures IsStripped(r)
    ensures ':' in line && Classify(line) == SitemapRule ==> r == Strip(AfterFirstColon(line))
    ensures ':' in line && Classify(line) != SitemapRule ==> r == Strip(SecondField(line))
  {
    if ':' !in line then ""
    else if Classify(line) == SitemapRule then Strip(AfterFirstColon(line))
    else Strip(SecondField(line))
  }

  /** A path or a delay that holds no colon is read back whole. */
  lemma RuleValue(directive: string, sep: string, v: string)
    requires ':' !in directive && ':' !in v
    requires forall i :: 0 <= i < |sep| ==> IsSpace(sep[i])
    requires IsStripped(v)
    requires Classify(directive + ":" + sep + v) != SitemapRule
    ensures Value(directive + ":" + sep + v) == v
  {
    RuleSecondField(directive, sep, v);
    StripLeadingSpace(sep, v);
    RuleLineValue(directive + ":" + sep + v);
  }

  lemma RuleSecondField(directive: string, sep: string, v: string)
    requires ':' !in directive && ':' !in v
    requires forall i :: 0 <= i < |sep| ==> IsSpace(sep[i])
    ensures ':' in directive + ":" + sep + v
    ensures SecondField(directive + ":" + sep + v) == sep + v
  {
    var line := directive + ":" + sep + v;
    assert line == directive + ":" + (sep + v);
    assert line[|directive|] == ':';
    SecondFieldOf(directive, sep + v);
    assert ':' !in sep + v by {
      assert forall i :: 0 <= i < |sep| ==> sep[i] != ':';
    }
    assert (sep + v)[..|sep + v|] == sep + v;
  }

  lemma RuleLineValue(line: string)
    requires ':' in line && Classify(line) != SitemapRule
    ensures Value(line) == Strip(SecondField(line))
  {
  }

  /** A colon inside a rule's value cuts it short: only the text up to the
      second colon of the line is kept. */
  lemma RuleValueTruncated(directive: string, v: string, tail: string)
    requires ':' !in directive && ':' !in v
    requires IsStripped(v)
    requires Classify(directive + ":" + v + ":" + tail) != SitemapRule
    ensures Value(directive + ":" + v + ":" + tail) == v
  {
    var line := directive + ":" + v + ":" + tail;
    assert ':' in line && SecondField(line) == v by {
      assert line == directive + ":" + (v + ":" + tail);
      assert line[|directive|] == ':';
      SecondFieldOf(directive, v + ":" + tail);
      FirstColonAt(v, tail);
    }
    assert Strip(v) == v by {
      StripStripped(v);
    }
    RuleLineValue(line);
  }

  /** The second field of a line is the text after its first colon, up to
      the next colon. */
  lemma SecondFieldOf(directive: string, rest: string)
    requires ':' !in directive
    ensures SecondField(directive + ":" + rest) == rest[..IndexOf(rest, ':')]
  {
    FirstColonAt(directive, rest);
  }

  /** A sitemap URL keeps its own colons. */
  lemma SitemapValue(directive: string, sep: string, url: string)
    requires ':' !in directive
    requires forall i :: 0 <= i < |sep| ==> IsSpace(sep[i])
    requires IsStripped(url)
    requires Classify(directive + ":" + sep + url) == SitemapRule
    ensures Value(directive + ":" + sep + url) == url
  {
    var line := directive + ":" + sep + url;
    FirstColonAt(directive, sep + url);
    assert line == directive + ":" + (sep + url);
    assert AfterFirstColon(line) == sep + url;
    StripLeadingSpace(sep, url);
  }

  lemma FirstColonAt(before: string, after: string)
    requires ':' !in before
    ensures IndexOf(before + ":" + after, ':') == |before|
    ensures (before + ":" + after)[..|before|] == before
    ensures (before + ":" + after)[|before| + 1..] == after
  {
    var line := before + ":" + after;
    assert line[|before|] == ':';
    assert forall j :: 0 <= j < |before| ==> line[j] == before[j];
  }

  /** Stripping removes exactly a leading run of whitespace from a stripped text. */
  lemma StripLeadingSpace(sep: string, v: string)
    requires forall i :: 0 <= i < |sep| ==> IsSpace(sep[i])
    requires IsStripped(v)
    ensures Strip(sep + v) == v
  {
    var s := sep + v;
    assert s[|sep|..|s|] == v;
    assert forall k :: 0 <= k < |sep| ==> s[k] == sep[k];
    StripUnique(s, |sep|, |s|);
  }

  lemma StripStripped(v: string)
    requires IsStripped(v)
    ensures Strip(v) == v
  {
    assert v[0..|v|] == v;
    StripUnique(v, 0, |v|);
  }

  /** The selector for the lines of one directive. */
  function OfKind(kind: Directive): string -> bool {
    l => Classify(l) == kind
  }

  /** The values of the first `n` stripped lines that carry directive `kind`,
      in line order: what the scan has appended to that directive's list. */
  function Scanned(kind: Directive, stripped: seq<string>, n: nat): seq<string>
    requires n <= |stripped|
  {
    SelectMap(OfKind(kind), Value, stripped, n)
  }

  /** The values of all the lines that carry directive `kind`. */
  function Values(kind: Directive, lines: seq<string>): seq<string> {
    var stripped := MapSeq(Strip, lines);
    Scanned(kind, stripped, |stripped|)
  }

  /** Each list holds one value per line of its directive, in line order. */
  lemma ValuesProjection(kind: Directive, lines: seq<string>)
    ensures Values(kind, lines) == MapSeq(Value, Filter(OfKind(kind), MapSeq(Strip, lines)))
  {
    var stripped := MapSeq(Strip, lines);
    SelectMapProjection(OfKind(kind), Value, stripped, |stripped|);
    assert stripped[..|stripped|] == stripped;
  }

  function Last(s: seq<string>): Option<string> {
    if s == [] then None else Some(s[|s| - 1])
  }

  /** The four results the scan accumulates. */
  datatype Lists = Lists(allowed: seq<string>, disallowed: seq<string>, sitemaps: seq<string>, crawlDelay: Option<string>)

  const NO_LISTS := Lists([], [], [], None)

  /** One well-formed stripped line's effect: its value goes to its
      directive's list, and a crawl delay replaces the previous one. */
  function Add(acc: Lists, line: string): Lists {
    match Classify(line)
    case DisallowRule => acc.(disallowed := acc.disallowed + [Value(line)])
    case AllowRule => acc.(allowed := acc.allowed + [Value(line)])
    case SitemapRule => acc.(sitemaps := acc.sitemaps + [Value(line)])
    case CrawlDelayRule => acc.(crawlDelay := Some(Value(line)))
    case Other => acc
  }

  /** The lists after the first `n` lines. */
  function Collect(stripped: seq<string>, n: nat): Lists
    requires n <= |stripped|
    decreases n
  {
    if n == 0 then NO_LISTS else Add(Collect(stripped, n - 1), stripped[n - 1])
  }

  /** Each accumulated list is the per-directive scan, and the crawl delay is
      the last crawl-delay value. */
  lemma {:induction false} CollectScanned(stripped: seq<string>, n: nat)
    requires n <= |stripped|
    ensures Collect(stripped, n).allowed == Scanned(AllowRule, stripped, n)
    ensures Collect(stripped, n).disallowed == Scanned(DisallowRule, stripped, n)
    ensures Collect(stripped, n).sitemaps == Scanned(SitemapRule, stripped, n)
    ensures Collect(stripped, n).crawlDelay == Last(Scanned(CrawlDelayRule, stripped, n))
    decreases n
  {
    if n > 0 {
      CollectScanned(stripped, n - 1);
      ScannedStep(AllowRule, stripped, n);
      ScannedStep(DisallowRule, stripped, n);
      ScannedStep(SitemapRule, stripped, n);
      ScannedStep(CrawlDelayRule, stripped, n);
      AddFields(Collect(stripped, n - 1), stripped[n - 1]);
    }
  }

  /** `Add` touches only the field of the line's directive. */
  lemma AddFields(acc: Lists, line: string)
    ensures Add(acc, line).allowed ==
      if Classify(line) == AllowRule then acc.allowed + [Value(line)] else acc.allowed
    ensures Add(acc, line).disallowed ==
      if Classify(line) == DisallowRule then acc.disallowed + [Value(line)] else acc.disallowed
    ensures Add(acc, line).sitemaps ==
      if Classify(line) == SitemapRule then acc.sitemaps + [Value(line)] else acc.sitemaps
    ensures Add(acc, line).crawlDelay ==
      if Classify(line) == CrawlDelayRule then Some(Value(line)) else acc.crawlDelay
  {
  }

  /** One more line extends its own directive's scan and no other. */
  lemma ScannedStep(kind: Directive, stripped: seq<string>, n: nat)
    requires 0 < n <= |stripped|
    ensures Scanned(kind, stripped, n) ==
      if Classify(stripped[n - 1]) == kind then Scanned(kind, stripped, n - 1) + [Value(stripped[n - 1])]
      else Scanned(kind, stripped, n - 1)
  {
    assert OfKind(kind)(stripped[n - 1]) == (Classify(stripped[n - 1]) == kind);
  }

  datatype Report =
    | Summary(allowed: seq<string>, disallowed: seq<string>, sitemaps: seq<string>, crawlDelay: Option<string>)
    | FetchError(status: int)
    | LineError(index: nat)

  /** `analyze_robots_txt` once the file has been fetched (`status`) and split
      into `lines`: a non-200 status is reported without looking at the lines,
      a directive line without a colon aborts the scan, and otherwise each
      list holds the values of its directive's lines in order and the crawl
      delay is the value of the last crawl-delay line. */
  method AnalyzeRobotsTxt(status: int, lines: seq<string>) returns (r: Report)
    ensures status != OK_STATUS ==> r == FetchError(status)
    ensures r.FetchError? <==> status != OK_STATUS
    ensures status == OK_STATUS ==> (r.LineError? <==> FirstMalformed(MapSeq(Strip, lines)) < |lines|)
    ensures status == OK_STATUS ==> (r.Summary? <==> FirstMalformed(MapSeq(Strip, lines)) == |lines|)
    ensures r.LineError? ==> r.index == FirstMalformed(MapSeq(Strip, lines))
    ensures r.Summary? ==>
      && status == OK_STATUS
      && r.allowed == Values(AllowRule, lines)
      && r.disallowed == Values(DisallowRule, lines)
      && r.sitemaps == Values(SitemapRule, lines)
      && r.crawlDelay == Last(Values(CrawlDelayRule, lines))
  {
    if status != OK_STATUS {
      return FetchError(status);
    }
    var stripped := MapSeq(Strip, lines);
    var acc := NO_LISTS;
    var i := 0;
    while i < |stripped|
      invariant 0 <= i <= |stripped|
      invariant i <= FirstMalformed(stripped)
      invariant acc == Collect(stripped, i)
    {
      var line := stripped[i];
      if IsMalformed(line) {
        assert FirstMalformed(stripped) == i;
        return LineError(i);
      }
      FirstMalformedAfter(stripped, i);
      acc := Add(acc, line);
      i := i + 1;
    }
    assert FirstMalformed(stripped) == |stripped|;
    CollectScanned(stripped, |stripped|);
    return Summary(acc.allowed, acc.disallowed, acc.sitemaps, acc.crawlDelay);
  }
}
