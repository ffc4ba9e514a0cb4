/** Keyword ranking: the description and the instructions are tokenised into
    lower-cased word runs, stopwords and short words are dropped, and the ten
    most frequent remaining words are kept, ties going to the word seen first
    (`Counter(filtered).most_common(10)`). */
module Keywords {
  import opened Seqs
  import opened Text

  const STOPWORDS: set<string> := {
    "the", "and", "for", "with", "that", "this", "from", "will", "have", "also",
    "when", "which", "your", "more", "make", "them", "their", "just", "than"
  }

  const MAX_KEYWORDS := 10

  /** `\w` restricted to ASCII: letters, digits and the underscore. */
  predicate IsWordChar(c: char) {
    'a' <= c <= 'z' || 'A' <= c <= 'Z' || '0' <= c <= '9' || c == '_'
  }

  predicate IsKeywordCandidate(w: string) {
    w !in STOPWORDS && |w| > 3
  }

  /** `description + " " + " ".join(steps)`. */
  function TextBlob(description: string, steps: seq<string>): string {
    description + " " + Join(" ", steps)
  }

  /** `re.findall(r'\b\w+\b', text_blob.lower())`. */
  function Words(description: string, steps: seq<string>): (r: seq<string>)
    ensures forall i :: 0 <= i < |r| ==> r[i] != [] && AllChars(IsWordChar, r[i])
    ensures Flatten(r) == Filter(IsWordChar, Lower(TextBlob(description, steps)))
  {
    Runs(IsWordChar, Lower(TextBlob(description, steps)))
  }

  /** The tokens are the maximal word runs: with the stretches between them
      put back they rebuild the lower-cased text, and no other split into
      runs separated by non-word characters does. */
  lemma WordsMaximal(description: string, steps: seq<string>, gaps: seq<string>, runs: seq<string>)
    ensures Interleave(Gaps(IsWordChar, Lower(TextBlob(description, steps))), Words(description, steps))
            == Lower(TextBlob(description, steps))
    ensures && |gaps| == |runs| + 1 && Interleave(gaps, runs) == Lower(TextBlob(description, steps))
            && (forall k :: 0 <= k < |runs| ==> runs[k] != [] && AllChars(IsWordChar, runs[k]))
            && (forall k :: 0 <= k < |gaps| ==> AllChars(Negate(IsWordChar), gaps[k]))
            && (forall k :: 0 < k < |gaps| - 1 ==> gaps[k] != [])
            ==> runs == Words(description, steps)
  {
    var text := Lower(TextBlob(description, steps));
    RunsRoundTrip(IsWordChar, text);
    if && |gaps| == |runs| + 1 && Interleave(gaps, runs) == text
       && (forall k :: 0 <= k < |runs| ==> runs[k] != [] && AllChars(IsWordChar, runs[k]))
       && (forall k :: 0 <= k < |gaps| ==> AllChars(Negate(IsWordChar), gaps[k]))
       && (forall k :: 0 < k < |gaps| - 1 ==> gaps[k] != []) {
      RunsUnique(IsWordChar, text, gaps, runs);
    }
  }

  /** The words that may become keywords, with repetitions, in text order. */
  function CandidateWords(description: string, steps: seq<string>): (r: seq<string>)
    ensures forall i :: 0 <= i < |r| ==> r[i] !in STOPWORDS && |r[i]| > 3
    ensures forall w :: w in r <==> w in Words(description, steps) && IsKeywordCandidate(w)
    ensures forall w :: multiset(r)[w] == if IsKeywordCandidate(w) then multiset(Words(description, steps))[w] else 0
    ensures IsSubseq(r, Words(description, steps))
  {
    FilterCounts(IsKeywordCandidate, Words(description, steps));
    FilterSubseq(IsKeywordCandidate, Words(description, steps));
    Filter(IsKeywordCandidate, Words(description, steps))
  }

  /** `x` comes before `y` in `most_common` order over `ws`: it is more
      frequent, or equally frequent and seen first. */
  predicate Outranks(ws: seq<string>, x: string, y: string) {
    multiset(ws)[x] > multiset(ws)[y]
    || (multiset(ws)[x] == multiset(ws)[y] && IndexOf(ws, x) < IndexOf(ws, y))
  }

  predicate RankSorted(ws: seq<string>, s: seq<string>) {
    forall i, j :: 0 <= i < j < |s| ==> Outranks(ws, s[i], s[j])
  }

  /** Two distinct words of `ws` are always ordered one way or the other. */
  lemma OutranksTotal(ws: seq<string>, x: string, y: string)
    requires x in ws && y in ws && x != y
    ensures Outranks(ws, x, y) || Outranks(ws, y, x)
  {
    assert IndexOf(ws, x) != IndexOf(ws, y);
  }

  function InsertByRank(ws: seq<string>, x: string, s: seq<string>): (r: seq<string>)
    requires x in ws && x !in s
    requires forall e :: e in s ==> e in ws
    requires RankSorted(ws, s)
    ensures RankSorted(ws, r)
    ensures |r| == |s| + 1
    ensures forall e :: e in r <==> e == x || e in s
    decreases |s|
  {
    if s == [] then [x]
    else if Outranks(ws, x, s[0]) then
      assert forall j :: 0 <= j < |s| ==> Outranks(ws, x, s[j]) by {
        forall j | 0 < j < |s| ensures Outranks(ws, x, s[j]) {
          assert Outranks(ws, s[0], s[j]);
        }
      }
      [x] + s
    else
      OutranksTotal(ws, x, s[0]);
      var rest := InsertByRank(ws, x, s[1..]);
      assert forall e :: e in rest ==> Outranks(ws, s[0], e) by {
        forall e | e in rest ensures Outranks(ws, s[0], e) {
          if e != x {
            var j :| 1 <= j < |s| && s[j] == e;
            assert Outranks(ws, s[0], s[j]);
          }
        }
      }
      [s[0]] + rest
  }

  /** Distinct words of `ws`, sorted into `most_common` order. */
  function SortByRank(ws: seq<string>, s: seq<string>): (r: seq<string>)
    requires NoDuplicates(s)
    requires forall e :: e in s ==> e in ws
    ensures RankSorted(ws, r)
    ensures |r| == |s|
    ensures forall e :: e in r <==> e in s
    decreases |s|
  {
    if s == [] then []
    else
      InsertByRank(ws, s[0], SortByRank(ws, s[1..]))
  }

  lemma {:induction false} PrefixOutranksRest(ws: seq<string>, sorted: seq<string>, m: nat)
    requires RankSorted(ws, sorted)
    requires m <= |sorted|
    ensures forall w, v :: w in sorted && w !in sorted[..m] && v in sorted[..m] ==> Outranks(ws, v, w)
  {
    forall w, v | w in sorted && w !in sorted[..m] && v in sorted[..m]
      ensures Outranks(ws, v, w)
    {
      var k :| 0 <= k < |sorted| && sorted[k] == w;
      var j :| 0 <= j < m && sorted[..m][j] == v;
      assert forall i :: 0 <= i < m ==> sorted[..m][i] == sorted[i];
      assert Outranks(ws, sorted[j], sorted[k]);
    }
  }

  /** `Counter(ws).most_common(n)`, keeping the words only. */
  function MostCommon(ws: seq<string>, n: nat): (r: seq<string>)
    ensures |r| <= n
    ensures NoDuplicates(r)
    ensures forall w :: w in r ==> w in ws
    ensures RankSorted(ws, r)
    ensures forall w :: w in ws && w !in r ==> |r| == n
    ensures forall w, v :: w in ws && w !in r && v in r ==> Outranks(ws, v, w)
  {
    var sorted := SortByRank(ws, Distinct(ws));
    var r := if n <= |sorted| then sorted[..n] else sorted;
    PrefixOutranksRest(ws, sorted, |r|);
    assert r == sorted[..|r|];
    r
  }

  /** The keywords of a recipe. */
  function Keywords(description: string, steps: seq<string>): (r: seq<string>)
    ensures |r| <= MAX_KEYWORDS
    ensures NoDuplicates(r)
    ensures forall w :: w in r ==> w in Words(description, steps) && w !in STOPWORDS && |w| > 3
    ensures RankSorted(CandidateWords(description, steps), r)
    ensures forall w :: w in CandidateWords(description, steps) && w !in r ==> |r| == MAX_KEYWORDS
    ensures forall w, v :: w in CandidateWords(description, steps) && w !in r && v in r ==>
      Outranks(CandidateWords(description, steps), v, w)
  {
    MostCommon(CandidateWords(description, steps), MAX_KEYWORDS)
  }
}
