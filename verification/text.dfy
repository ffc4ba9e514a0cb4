/** The string operations the crawler borrows from Python: `strip`, `in`,
    `startswith`, `endswith`, `lower`, `split` and regex word runs. */
module Text {
  import opened Seqs

  /** Python's `str.isspace` on one code point: what `strip()` and `split()` remove. */
  predicate IsSpace(c: char) {
    var n := c as int;
    n == 0x20 || 0x09 <= n <= 0x0D || 0x1C <= n <= 0x1F || n == 0x85 || n == 0xA0
    || n == 0x1680 || 0x2000 <= n <= 0x200A || n == 0x2028 || n == 0x2029
    || n == 0x202F || n == 0x205F || n == 0x3000
  }

  /** No whitespace at either end: what `strip()` always produces. */
  predicate IsStripped(s: string) {
    s == [] || (!IsSpace(s[0]) && !IsSpace(s[|s| - 1]))
  }

  /** Python's `s.startswith(p)`. */
  predicate StartsWith(s: string, p: string) {
    p <= s
  }

  /** Python's `s.endswith(suffix)`. */
  predicate EndsWith(s: string, suffix: string) {
    |suffix| <= |s| && s[|s| - |suffix|..] == suffix
  }

  /** Python's `sub in s` on strings: `sub` occurs as a contiguous block. */
  predicate Contains(s: string, sub: string)
    decreases |s|
  {
    sub <= s || (s != [] && Contains(s[1..], sub))
  }

  lemma {:induction false} ContainsEmpty(s: string)
    ensures Contains(s, "")
  {
  }

  /** Lower-casing of one character, restricted to ASCII letters. */
  function LowerChar(c: char): char {
    if 'A' <= c <= 'Z' then (c as int + 32) as char else c
  }

  function Lower(s: string): (r: string)
    ensures |r| == |s|
    ensures forall i :: 0 <= i < |s| ==> r[i] == LowerChar(s[i])
  {
    seq(|s|, i requires 0 <= i < |s| => LowerChar(s[i]))
  }

  predicate AllChars(p: char -> bool, w: string) {
    forall i :: 0 <= i < |w| ==> p(w[i])
  }

  /** Every character of `s[lo..hi]` gets the answer `want` from `p`. */
  predicate Span(p: char -> bool, want: bool, s: string, lo: nat, hi: nat)
    requires lo <= hi <= |s|
  {
    forall k :: lo <= k < hi ==> p(s[k]) == want
  }

  /** The end of the stretch, from position `i` on, of characters on which
      `p` answers `want`. */
  function Skip(p: char -> bool, want: bool, s: string, i: nat): (e: nat)
    requires i <= |s|
    ensures i <= e <= |s|
    ensures Span(p, want, s, i, e)
    ensures e < |s| ==> p(s[e]) != want
    decreases |s| - i
  {
    if i < |s| && p(s[i]) == want then Skip(p, want, s, i + 1) else i
  }

  /** A stretch is skipped up to the first character that breaks it. */
  lemma SkipAt(p: char -> bool, want: bool, s: string, i: nat, e: nat)
    requires i <= e <= |s| && Span(p, want, s, i, e)
    requires e == |s| || p(s[e]) != want
    ensures Skip(p, want, s, i) == e
  {
  }

  /** The start of the whitespace that ends at position `j`, looking no
      further back than `lo`. */
  function SpaceStart(s: string, lo: nat, j: nat): (b: nat)
    requires lo <= j <= |s|
    ensures lo <= b <= j
    ensures Span(IsSpace, true, s, b, j)
    ensures lo < b ==> !IsSpace(s[b - 1])
    decreases j
  {
    if lo < j && IsSpace(s[j - 1]) then SpaceStart(s, lo, j - 1) else j
  }

  /** Python's `str.strip()` with no arguments: the slice of `s` left once
      the whitespace at both ends is cut off. */
  function Strip(s: string): (r: string)
    ensures IsStripped(r)
    ensures r == [] <==> AllChars(IsSpace, s)
    ensures exists i: nat, j: nat :: i <= j <= |s| && r == s[i..j]
                                    && Span(IsSpace, true, s, 0, i) && Span(IsSpace, true, s, j, |s|)
  {
    var a := Skip(IsSpace, true, s, 0);
    var b := SpaceStart(s, a, |s|);
    s[a..b]
  }

  /** `strip()` is pinned down by its result: any stripped slice of `s` with
      only whitespace around it is what `strip()` returns. */
  lemma StripUnique(s: string, i: nat, j: nat)
    requires i <= j <= |s|
    requires IsStripped(s[i..j]) && Span(IsSpace, true, s, 0, i) && Span(IsSpace, true, s, j, |s|)
    ensures Strip(s) == s[i..j]
  {
    var a := Skip(IsSpace, true, s, 0);
    var b := SpaceStart(s, a, |s|);
    if i == j {
      assert AllChars(IsSpace, s);
    } else {
      assert s[i..j][0] == s[i] && s[i..j][j - i - 1] == s[j - 1];
      assert a == i;
      assert b == j;
    }
  }

  /** Stripping only removes characters. */
  lemma StripKeepsChars(s: string)
    ensures forall c :: c in Strip(s) ==> c in s
  {
    var i: nat, j: nat :| i <= j <= |s| && Strip(s) == s[i..j]
                          && Span(IsSpace, true, s, 0, i) && Span(IsSpace, true, s, j, |s|);
    assert forall k :: 0 <= k < j - i ==> s[i..j][k] == s[i + k];
  }

  /** The characters `p` rejects. */
  function Negate(p: char -> bool): char -> bool {
    c => !p(c)
  }

  /** Dropping a stretch without `p`-characters and keeping one of `p`-characters. */
  lemma FilterSplit(p: char -> bool, s: string, g: nat, w: nat)
    requires g <= w <= |s|
    requires Span(p, false, s, 0, g) && Span(p, true, s, g, w)
    ensures Filter(p, s) == s[g..w] + Filter(p, s[w..])
  {
    var a, b, c := s[..g], s[g..w], s[w..];
    assert forall i :: 0 <= i < |a| ==> !p(a[i]) by {
      assert forall i :: 0 <= i < |a| ==> a[i] == s[i];
    }
    assert forall i :: 0 <= i < |b| ==> p(b[i]) by {
      assert forall i :: 0 <= i < |b| ==> b[i] == s[g + i];
    }
    Split3(s, g, w);
    FilterDropKeep(p, a, b, c);
  }

  /** The maximal runs of `p`-characters of `s`, left to right:
      `re.findall(r'\b\w+\b', s)` for word characters and `s.split()` for
      non-whitespace. */
  function Runs(p: char -> bool, s: string): (r: seq<string>)
    ensures forall k :: 0 <= k < |r| ==> r[k] != [] && AllChars(p, r[k])
    ensures Flatten(r) == Filter(p, s)
    decreases |s|
  {
    var g := Skip(p, false, s, 0);
    if g == |s| then
      FilterNone(p, s);
      []
    else
      var w := Skip(p, true, s, g);
      var rest := Runs(p, s[w..]);
      FilterSplit(p, s, g, w);
      assert ([s[g..w]] + rest)[1..] == rest;
      [s[g..w]] + rest
  }

  /** The stretches of other characters around the runs: one before each
      run and one after the last. */
  function Gaps(p: char -> bool, s: string): (gs: seq<string>)
    ensures |gs| == |Runs(p, s)| + 1
    ensures forall k :: 0 <= k < |gs| ==> AllChars(Negate(p), gs[k])
    decreases |s|
  {
    var g := Skip(p, false, s, 0);
    if g == |s| then
      [s]
    else
      var w := Skip(p, true, s, g);
      var rest := Gaps(p, s[w..]);
      assert AllChars(Negate(p), s[..g]) by {
        assert forall i :: 0 <= i < g ==> s[..g][i] == s[i];
      }
      [s[..g]] + rest
  }

  /** Only the first and the last gap can be empty: between two runs there
      is always at least one other character. */
  lemma {:induction false} GapsSeparate(p: char -> bool, s: string)
    ensures s != [] && !p(s[0]) ==> Gaps(p, s)[0] != []
    ensures forall k :: 0 < k < |Gaps(p, s)| - 1 ==> Gaps(p, s)[k] != []
    decreases |s|
  {
    var g := Skip(p, false, s, 0);
    if g < |s| {
      var w := Skip(p, true, s, g);
      var rest := Gaps(p, s[w..]);
      GapsSeparate(p, s[w..]);
      assert Gaps(p, s) == [s[..g]] + rest;
      if |rest| > 1 {
        assert w < |s| && !p(s[w]);
        assert s[w..][0] == s[w];
      }
    }
  }

  /** `gaps[0] + runs[0] + gaps[1] + … + runs[n-1] + gaps[n]`. */
  function Interleave(gaps: seq<string>, runs: seq<string>): string
    requires |gaps| == |runs| + 1
    decreases |runs|
  {
    if runs == [] then gaps[0] else gaps[0] + runs[0] + Interleave(gaps[1..], runs[1..])
  }

  /** Putting the gaps back between the runs gives back the text. */
  lemma {:induction false} RunsRoundTrip(p: char -> bool, s: string)
    ensures Interleave(Gaps(p, s), Runs(p, s)) == s
    decreases |s|
  {
    var g := Skip(p, false, s, 0);
    if g < |s| {
      var w := Skip(p, true, s, g);
      RunsRoundTrip(p, s[w..]);
      var gs, rs := Gaps(p, s), Runs(p, s);
      assert gs[0] == s[..g] && gs[1..] == Gaps(p, s[w..]);
      assert rs[0] == s[g..w] && rs[1..] == Runs(p, s[w..]);
      assert Interleave(gs, rs) == s[..g] + s[g..w] + s[w..];
      Split3(s, g, w);
    }
  }

  /** The runs are maximal: writing `s` as non-empty `p`-runs separated by
      non-empty stretches of other characters (the stretches at both ends
      may be empty) can only be done the way `Runs` and `Gaps` do it. */
  lemma {:induction false} RunsUnique(p: char -> bool, s: string, gaps: seq<string>, runs: seq<string>)
    requires |gaps| == |runs| + 1 && Interleave(gaps, runs) == s
    requires forall k :: 0 <= k < |runs| ==> runs[k] != [] && AllChars(p, runs[k])
    requires forall k :: 0 <= k < |gaps| ==> AllChars(Negate(p), gaps[k])
    requires forall k :: 0 < k < |gaps| - 1 ==> gaps[k] != []
    ensures runs == Runs(p, s) && gaps == Gaps(p, s)
    decreases |runs|
  {
    if runs == [] {
      assert s == gaps[0];
      SkipAt(p, false, s, 0, |s|);
    } else {
      var gs, rs := gaps[1..], runs[1..];
      assert runs == [runs[0]] + rs && gaps == [gaps[0]] + gs;
      assert forall k :: 0 <= k < |rs| ==> rs[k] != [] && AllChars(p, rs[k]) by {
        forall k | 0 <= k < |rs| ensures rs[k] != [] && AllChars(p, rs[k]) {
          assert rs[k] == runs[k + 1];
        }
      }
      assert forall k :: 0 <= k < |gs| ==> AllChars(Negate(p), gs[k]) by {
        forall k | 0 <= k < |gs| ensures AllChars(Negate(p), gs[k]) {
          assert gs[k] == gaps[k + 1];
        }
      }
      assert forall k :: 0 < k < |gs| - 1 ==> gs[k] != [] by {
        forall k | 0 < k < |gs| - 1 ensures gs[k] != [] {
          assert gs[k] == gaps[k + 1];
        }
      }
      var rest := Interleave(gs, rs);
      assert rest == [] || !p(rest[0]) by {
        if gs[0] != [] {
          InterleaveHead(gs, rs);
        } else {
          assert |gaps| == 2;
        }
      }
      assert s == gaps[0] + runs[0] + rest;
      RunsUnique(p, rest, gs, rs);
      RunsFront(p, gaps[0], runs[0], rest);
    }
  }

  /** A text that opens with a gap and a run followed by a break splits there. */
  lemma RunsFront(p: char -> bool, gap: string, run: string, rest: string)
    requires AllChars(Negate(p), gap) && run != [] && AllChars(p, run)
    requires rest == [] || !p(rest[0])
    ensures Runs(p, gap + run + rest) == [run] + Runs(p, rest)
    ensures Gaps(p, gap + run + rest) == [gap] + Gaps(p, rest)
  {
    var s := gap + run + rest;
    var g, w := |gap|, |gap| + |run|;
    assert Span(p, false, s, 0, g) by {
      assert forall k :: 0 <= k < g ==> s[k] == gap[k];
    }
    assert Span(p, true, s, g, w) by {
      assert forall k :: g <= k < w ==> s[k] == run[k - g];
    }
    assert w < |s| ==> s[w] == rest[0];
    SkipAt(p, false, s, 0, g);
    SkipAt(p, true, s, g, w);
    assert s[..g] == gap && s[g..w] == run && s[w..] == rest;
  }

  /** A non-empty first gap starts the interleaving. */
  lemma InterleaveHead(gaps: seq<string>, runs: seq<string>)
    requires |gaps| == |runs| + 1 && gaps[0] != []
    ensures Interleave(gaps, runs) != [] && Interleave(gaps, runs)[0] == gaps[0][0]
  {
  }

  /** Python's `sep.join(parts)`. */
  function Join(sep: string, parts: seq<string>): string
    decreases |parts|
  {
    if parts == [] then []
    else if |parts| == 1 then parts[0]
    else parts[0] + sep + Join(sep, parts[1..])
  }
}
