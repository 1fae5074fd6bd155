/**
  The two tag-aware scanners behind the typewriter effect.

  Both read an HTML string from left to right and keep one flag, "inside a
  tag": a '<' sets it, a '>' clears it.  A character that is neither bracket
  and is read while the flag is clear is VISIBLE.  The specification side of
  this module describes the scanner state after a prefix of the input
  (InTagAfter, Visible), the point where the cut for the first k visible
  characters is made (CutFrom, BuildUpTo), and proves the properties the
  typewriter relies on.  The two methods at the end are the loops themselves.
*/
module HtmlText {

  /** The characters that switch the scanner in and out of a tag. */
  predicate IsBracket(c: char) {
    c == '<' || c == '>'
  }

  /** The scanner's "inside a tag" flag after it has read all of `s`. */
  function InTagAfter(s: string): bool {
    if s == [] then false
    else if s[|s| - 1] == '<' then true
    else if s[|s| - 1] == '>' then false
    else InTagAfter(s[..|s| - 1])
  }

  /** Position `i` of `s` holds a character the scanner shows. */
  predicate IsVisibleAt(s: string, i: int) {
    0 <= i < |s| && !IsBracket(s[i]) && !InTagAfter(s[..i])
  }

  /** The visible characters of `s`, in order. */
  function Visible(s: string): seq<char> {
    if s == [] then []
    else Visible(s[..|s| - 1]) + (if IsVisibleAt(s, |s| - 1) then [s[|s| - 1]] else [])
  }

  /** The positions of the visible characters of `s`, in order. */
  function VisibleIndices(s: string): seq<int> {
    if s == [] then []
    else VisibleIndices(s[..|s| - 1]) + (if IsVisibleAt(s, |s| - 1) then [|s| - 1] else [])
  }

  /** A '<' stands at `a`, and no '>' follows it before position `i`. */
  predicate OpenSince(s: string, a: int, i: int) {
    0 <= a < i <= |s| && s[a] == '<' && forall m :: a < m < i ==> s[m] != '>'
  }

  function Min(a: int, b: int): int {
    if a <= b then a else b
  }

  // ---------------------------------------------------------------------
  // One step of the scanner, and prefixes

  /** Reading character `i` updates the flag and the visible text like the loop body. */
  lemma VisibleStep(s: string, i: nat)
    requires i < |s|
    ensures InTagAfter(s[..i + 1]) == (if s[i] == '<' then true else if s[i] == '>' then false else InTagAfter(s[..i]))
    ensures Visible(s[..i + 1]) == Visible(s[..i]) + (if IsVisibleAt(s, i) then [s[i]] else [])
  {
    var p := s[..i + 1];
    assert p[..i] == s[..i];
    assert p[|p| - 1] == s[i];
    assert IsVisibleAt(p, i) == IsVisibleAt(s, i);
  }

  /** Whether a position is visible depends only on what precedes it. */
  lemma VisibleAtPrefix(s: string, n: nat, i: nat)
    requires i < n <= |s|
    ensures IsVisibleAt(s[..n], i) == IsVisibleAt(s, i)
  {
    assert s[..n][..i] == s[..i];
  }

  /** Reading further never takes back a character already shown. */
  lemma {:induction false} VisiblePrefixMono(s: string, i: nat, j: nat)
    requires i <= j <= |s|
    ensures Visible(s[..i]) <= Visible(s[..j])
    decreases j - i
  {
    if i < j {
      VisiblePrefixMono(s, i, j - 1);
      VisibleStep(s, j - 1);
    }
  }

  /** A visible position at `j` means more visible text lies ahead of the prefix before it. */
  lemma VisibleBefore(s: string, j: nat)
    requires IsVisibleAt(s, j)
    ensures Visible(s[..j]) + [s[j]] <= Visible(s)
  {
    VisibleStep(s, j);
    VisiblePrefixMono(s, j + 1, |s|);
    assert s[..|s|] == s;
  }

  // ---------------------------------------------------------------------
  // Properties of getVisibleCharacters

  /** No '<' or '>' is ever among the visible characters. */
  lemma {:induction false} VisibleHasNoBrackets(s: string)
    ensures forall j :: 0 <= j < |Visible(s)| ==> !IsBracket(Visible(s)[j])
  {
    if s != [] {
      VisibleHasNoBrackets(s[..|s| - 1]);
    }
  }

  /** The visible text is never longer than the input. */
  lemma {:induction false} VisibleLength(s: string)
    ensures |Visible(s)| <= |s|
  {
    if s != [] {
      VisibleLength(s[..|s| - 1]);
    }
  }

  /** The flag is set exactly when the last bracket read so far is a '<'. */
  lemma {:induction false} InTagIff(s: string, i: nat)
    requires i <= |s|
    ensures InTagAfter(s[..i]) <==> exists a :: OpenSince(s, a, i)
  {
    if i == 0 {
      assert s[..0] == [];
    } else {
      InTagIff(s, i - 1);
      VisibleStep(s, i - 1);
      if s[i - 1] == '<' {
        assert OpenSince(s, i - 1, i);
      } else if s[i - 1] == '>' {
        forall a | 0 <= a < i ensures !OpenSince(s, a, i) {
          if a < i - 1 {
            assert s[i - 1] == '>';
          }
        }
      } else {
        if InTagAfter(s[..i - 1]) {
          var a :| OpenSince(s, a, i - 1);
          assert OpenSince(s, a, i);
        }
        if exists a :: OpenSince(s, a, i) {
          var a :| OpenSince(s, a, i);
          assert a < i - 1;
          assert OpenSince(s, a, i - 1);
        }
      }
    }
  }

  /** Everything from a '<' up to and including the next '>' adds nothing to the visible text. */
  lemma TagIsDropped(s: string, a: nat, b: nat)
    requires a < b < |s| && s[a] == '<' && s[b] == '>'
    requires forall m :: a < m < b ==> s[m] != '>'
    ensures Visible(s[..b + 1]) == Visible(s[..a])
  {
    TagIsDroppedUpTo(s, a, b, b + 1);
  }

  lemma {:induction false} TagIsDroppedUpTo(s: string, a: nat, b: nat, j: nat)
    requires a < b < |s| && s[a] == '<' && s[b] == '>'
    requires forall m :: a < m < b ==> s[m] != '>'
    requires a < j <= b + 1
    ensures Visible(s[..j]) == Visible(s[..a])
    decreases j
  {
    if j == a + 1 {
      VisibleStep(s, a);
    } else {
      TagIsDroppedUpTo(s, a, b, j - 1);
      VisibleStep(s, j - 1);
      if j - 1 < b {
        assert OpenSince(s, a, j - 1);
        InTagIff(s, j - 1);
      }
    }
  }

  /**
    The visible text is the subsequence of `s` at the visible positions:
    their positions increase, each carries the character shown, and no
    visible position is missed.
  */
  lemma {:induction false} VisibleIsSubsequence(s: string)
    ensures |VisibleIndices(s)| == |Visible(s)|
    ensures forall j :: 0 <= j < |VisibleIndices(s)| ==>
              IsVisibleAt(s, VisibleIndices(s)[j]) && s[VisibleIndices(s)[j]] == Visible(s)[j]
    ensures forall j, l :: 0 <= j < l < |VisibleIndices(s)| ==> VisibleIndices(s)[j] < VisibleIndices(s)[l]
    ensures forall i :: IsVisibleAt(s, i) ==> i in VisibleIndices(s)
  {
    if s != [] {
      var n := |s| - 1;
      var p := s[..n];
      VisibleIsSubsequence(p);
      forall i | 0 <= i < n ensures IsVisibleAt(p, i) == IsVisibleAt(s, i) && p[i] == s[i] {
        VisibleAtPrefix(s, n, i);
      }
      var ip := VisibleIndices(p);
      assert forall j :: 0 <= j < |ip| ==> ip[j] < n;
    }
  }

  // ---------------------------------------------------------------------
  // buildTextUpToIndex as a function: where the scan for k visible characters stops

  /**
    Searching from position `j`, the index where the scan stops: the first
    visible position reached once `k` characters are shown, or the end.
  */
  function CutFrom(s: string, k: nat, j: nat): (c: nat)
    requires j <= |s|
    ensures j <= c <= |s|
    ensures c == |s| || (IsVisibleAt(s, c) && |Visible(s[..c])| >= k)
    decreases |s| - j
  {
    if j == |s| then |s|
    else if IsVisibleAt(s, j) && |Visible(s[..j])| >= k then j
    else CutFrom(s, k, j + 1)
  }

  /** The prefix of `s` that shows its first `k` visible characters and every tag reached before the cut. */
  function BuildUpTo(s: string, k: nat): (r: string)
    ensures r <= s
    ensures |r| == |s| || IsVisibleAt(s, |r|)
  {
    s[..CutFrom(s, k, 0)]
  }

  lemma {:induction false} CutVisible(s: string, k: nat, j: nat)
    requires j <= |s| && |Visible(s[..j])| <= k
    ensures Visible(s[..CutFrom(s, k, j)]) == Visible(s)[..Min(k, |Visible(s)|)]
    decreases |s| - j
  {
    VisiblePrefixMono(s, j, |s|);
    assert s[..|s|] == s;
    if j == |s| {
    } else if IsVisibleAt(s, j) && |Visible(s[..j])| >= k {
      VisibleBefore(s, j);
    } else {
      VisibleStep(s, j);
      CutVisible(s, k, j + 1);
    }
  }

  /** The cut shows exactly the first min(k, n) visible characters, n being the visible length. */
  lemma BuildUpToShowsPrefix(s: string, k: nat)
    ensures Visible(BuildUpTo(s, k)) == Visible(s)[..Min(k, |Visible(s)|)]
  {
    assert s[..0] == [];
    CutVisible(s, k, 0);
  }

  lemma {:induction false} CutAtEnd(s: string, k: nat, j: nat)
    requires j <= |s| && k >= |Visible(s)|
    ensures CutFrom(s, k, j) == |s|
    decreases |s| - j
  {
    if j < |s| {
      if IsVisibleAt(s, j) {
        VisibleBefore(s, j);
      }
      CutAtEnd(s, k, j + 1);
    }
  }

  /** Asking for at least every visible character returns the input unchanged. */
  lemma BuildUpToAll(s: string, k: nat)
    requires k >= |Visible(s)|
    ensures BuildUpTo(s, k) == s
  {
    CutAtEnd(s, k, 0);
  }

  lemma {:induction false} CutMono(s: string, k1: nat, k2: nat, j: nat)
    requires j <= |s| && k1 <= k2
    ensures CutFrom(s, k1, j) <= CutFrom(s, k2, j)
    decreases |s| - j
  {
    if j < |s| {
      CutMono(s, k1, k2, j + 1);
    }
  }

  /** Showing more characters only extends the shown prefix. */
  lemma BuildUpToMonotone(s: string, k1: nat, k2: nat)
    requires k1 <= k2
    ensures BuildUpTo(s, k1) <= BuildUpTo(s, k2)
  {
    CutMono(s, k1, k2, 0);
  }

  /**
    The cut is determined by what it shows: a prefix of `s` that shows the
    first min(k, n) visible characters and ends at the end of `s` or just
    before a visible character is BuildUpTo(s, k).
  */
  lemma BuildUpToUnique(s: string, k: nat, r: string)
    requires r <= s
    requires Visible(r) == Visible(s)[..Min(k, |Visible(s)|)]
    requires |r| == |s| || IsVisibleAt(s, |r|)
    ensures r == BuildUpTo(s, k)
  {
    var b := BuildUpTo(s, k);
    BuildUpToShowsPrefix(s, k);
    assert r == s[..|r|] && b == s[..|b|];
    if |r| < |b| {
      MoreAfterVisible(s, |r|, |b|);
    } else if |b| < |r| {
      MoreAfterVisible(s, |b|, |r|);
    }
  }

  /** Reading past a visible position shows strictly more. */
  lemma MoreAfterVisible(s: string, i: nat, j: nat)
    requires IsVisibleAt(s, i) && i < j <= |s|
    ensures |Visible(s[..j])| > |Visible(s[..i])|
  {
    VisibleStep(s, i);
    VisiblePrefixMono(s, i + 1, j);
  }

  // ---------------------------------------------------------------------
  // The scanners

  /** getVisibleCharacters: the characters outside tags, in order. */
  method GetVisibleCharacters(html: string) returns (chars: seq<char>)
    ensures chars == Visible(html)
    ensures forall j :: 0 <= j < |chars| ==> !IsBracket(chars[j])
    ensures |chars| <= |html|
  {
    chars := [];
    var inTag := false;
    for i := 0 to |html|
      invariant chars == Visible(html[..i])
      invariant inTag == InTagAfter(html[..i])
    {
      VisibleStep(html, i);
      var c := html[i];
      if c == '<' {
        inTag := true;
      } else if c == '>' {
        inTag := false;
      } else if !inTag {
        chars := chars + [c];
      }
    }
    assert html[..|html|] == html;
    VisibleHasNoBrackets(html);
    VisibleLength(html);
  }

  /**
    buildTextUpToIndex: the prefix of `html` that shows its first
    `targetIndex` visible characters; every tag met before the cut is kept.
  */
  method BuildTextUpToIndex(html: string, targetIndex: nat) returns (result: string)
    ensures result == BuildUpTo(html, targetIndex)
    ensures result <= html
    ensures Visible(result) == Visible(html)[..Min(targetIndex, |Visible(html)|)]
    ensures targetIndex >= |Visible(html)| ==> result == html
  {
    result := "";
    var visibleCount := 0;
    var inTag := false;
    for i := 0 to |html|
      invariant result == html[..i]
      invariant visibleCount == |Visible(html[..i])|
      invariant inTag == InTagAfter(html[..i])
      invariant CutFrom(html, targetIndex, i) == CutFrom(html, targetIndex, 0)
    {
      VisibleStep(html, i);
      var c := html[i];
      if c == '<' {
        inTag := true;
        result := result + [c];
      } else if c == '>' {
        inTag := false;
        result := result + [c];
      } else if inTag {
        result := result + [c];
      } else {
        if visibleCount < targetIndex {
          result := result + [c];
          visibleCount := visibleCount + 1;
        } else {
          break;
        }
      }
    }
    assert html[..|html|] == html;
    BuildUpToShowsPrefix(html, targetIndex);
    if targetIndex >= |Visible(html)| {
      BuildUpToAll(html, targetIndex);
    }
  }
}
