/** The Python string operations the statistics scraper relies on: `strip()`,
    `split()` with no separator, `startswith`, the substring test `in`, and
    `lower()`. Strings are sequences of characters. */
module Text {

  /** The characters `str.isspace()` accepts, which `strip()` and `split()`
      treat as whitespace. */
  predicate IsSpace(ch: char)
  {
    || ch == ' '
    || '\t' <= ch <= '\r'
    || '\U{1c}' <= ch <= '\U{1f}'
    || ch == '\U{85}' || ch == '\U{a0}' || ch == '\U{1680}'
    || '\U{2000}' <= ch <= '\U{200a}'
    || ch == '\U{2028}' || ch == '\U{2029}' || ch == '\U{202f}' || ch == '\U{205f}' || ch == '\U{3000}'
  }

  predicate AllSpace(s: string)
  {
    forall k :: 0 <= k < |s| ==> IsSpace(s[k])
  }

  predicate NoSpace(s: string)
  {
    forall k :: 0 <= k < |s| ==> !IsSpace(s[k])
  }

  /** A word as `split()` yields it: non-empty, without whitespace. */
  predicate IsWord(w: string)
  {
    w != [] && NoSpace(w)
  }

  /** `s[..n]` is the whole run of whitespace `s` starts with. */
  predicate LeadsWithSpace(s: string, n: int)
  {
    0 <= n <= |s| && AllSpace(s[..n]) && (n == |s| || !IsSpace(s[n]))
  }

  /** `s[n..]` is the whole run of whitespace `s` ends with. */
  predicate EndsWithSpace(s: string, n: int)
  {
    0 <= n <= |s| && AllSpace(s[n..]) && (n == 0 || !IsSpace(s[n - 1]))
  }

  /** The end of the whitespace run of `s` that covers position `i`. */
  function SpaceFrom(s: string, i: nat): (n: nat)
    requires i <= |s|
    ensures i <= n <= |s|
    ensures forall k :: i <= k < n ==> IsSpace(s[k])
    ensures n == |s| || !IsSpace(s[n])
    decreases |s| - i
  {
    if i < |s| && IsSpace(s[i]) then SpaceFrom(s, i + 1) else i
  }

  /** The start of the whitespace run of `s` that ends at position `j`. */
  function SpaceBefore(s: string, j: nat): (n: nat)
    requires j <= |s|
    ensures n <= j
    ensures forall k :: n <= k < j ==> IsSpace(s[k])
    ensures n == 0 || !IsSpace(s[n - 1])
  {
    if 0 < j && IsSpace(s[j - 1]) then SpaceBefore(s, j - 1) else j
  }

  /** `s` with its leading whitespace removed. */
  function TrimStart(s: string): (r: string)
    ensures |r| <= |s| && r == s[|s| - |r|..]
    ensures LeadsWithSpace(s, |s| - |r|)
  {
    var n := SpaceFrom(s, 0);
    assert forall k :: 0 <= k < n ==> s[..n][k] == s[k];
    s[n..]
  }

  /** `s` with its trailing whitespace removed. */
  function TrimEnd(s: string): (r: string)
    ensures |r| <= |s| && r == s[..|r|]
    ensures EndsWithSpace(s, |r|)
  {
    var n := SpaceBefore(s, |s|);
    assert forall k :: 0 <= k < |s| - n ==> s[n..][k] == s[n + k];
    s[..n]
  }

  /** `r` is `s` without its `a` leading and its trailing whitespace characters. */
  ghost predicate StrippedAt(s: string, r: string, a: int)
  {
    && 0 <= a && a + |r| <= |s|
    && r == s[a..a + |r|]
    && AllSpace(s[..a]) && AllSpace(s[a + |r|..])
    && (r == [] || (!IsSpace(r[0]) && !IsSpace(r[|r| - 1])))
  }

  /** `s.strip()`: the longest slice of `s` that neither starts nor ends with
      whitespace, with only whitespace cut off around it. */
  function Strip(s: string): (r: string)
    ensures exists a :: StrippedAt(s, r, a)
  {
    var t := TrimStart(s);
    var r := TrimEnd(t);
    var a := |s| - |t|;
    assert s[a..a + |r|] == r;
    assert s[a + |r|..] == t[|r|..];
    assert StrippedAt(s, r, a);
    r
  }

  /** The end of the run of non-whitespace characters of `s` that starts at `i`. */
  function WordFrom(s: string, i: nat): (n: nat)
    requires i <= |s|
    ensures i <= n <= |s|
    ensures forall k :: i <= k < n ==> !IsSpace(s[k])
    ensures n == |s| || IsSpace(s[n])
    decreases |s| - i
  {
    if i < |s| && !IsSpace(s[i]) then WordFrom(s, i + 1) else i
  }

  /** A whitespace run from `i` ends at the first non-whitespace character. */
  lemma SpaceFromIs(s: string, i: nat, n: nat)
    requires i <= n <= |s|
    requires forall k :: i <= k < n ==> IsSpace(s[k])
    requires n == |s| || !IsSpace(s[n])
    ensures SpaceFrom(s, i) == n
  {
  }

  /** A word from `i` ends at the first whitespace character. */
  lemma WordFromIs(s: string, i: nat, n: nat)
    requires i <= n <= |s|
    requires forall k :: i <= k < n ==> !IsSpace(s[k])
    requires n == |s| || IsSpace(s[n])
    ensures WordFrom(s, i) == n
  {
  }

  /** The fields of `s` from position `i` on: skip whitespace, take the word
      that follows, and go on after it. */
  function SplitFrom(s: string, i: nat): seq<string>
    requires i <= |s|
    decreases |s| - i
  {
    var a := SpaceFrom(s, i);
    if a == |s| then []
    else
      var b := WordFrom(s, a);
      [s[a..b]] + SplitFrom(s, b)
  }

  /** The characters of `s` that are not whitespace, in order. */
  function NonSpace(s: string): string
  {
    if s == [] then [] else (if IsSpace(s[0]) then [] else [s[0]]) + NonSpace(s[1..])
  }

  /** The fields of a split, joined without separators. */
  function Concat(ws: seq<string>): string
  {
    if ws == [] then [] else ws[0] + Concat(ws[1..])
  }

  /** `s.split()`: the maximal runs of non-whitespace characters, in order.
      Joined together, the fields are exactly the characters of `s` that are
      not whitespace. */
  function Split(s: string): (r: seq<string>)
    ensures Concat(r) == NonSpace(s)
  {
    SplitFromJoins(s, 0);
    SplitFrom(s, 0)
  }

  /** A whitespace run contributes no character. */
  lemma {:induction false} SpaceRunDrops(s: string, i: nat, a: nat)
    requires i <= a <= |s|
    requires forall k :: i <= k < a ==> IsSpace(s[k])
    ensures NonSpace(s[i..]) == NonSpace(s[a..])
    decreases a - i
  {
    if i < a {
      assert s[i..][1..] == s[i + 1..];
      SpaceRunDrops(s, i + 1, a);
    }
  }

  /** A run of non-whitespace characters contributes all of itself. */
  lemma {:induction false} WordRunKeeps(s: string, a: nat, b: nat)
    requires a <= b <= |s|
    requires forall k :: a <= k < b ==> !IsSpace(s[k])
    ensures NonSpace(s[a..]) == s[a..b] + NonSpace(s[b..])
    decreases b - a
  {
    if a < b {
      assert s[a..][1..] == s[a + 1..];
      WordRunKeeps(s, a + 1, b);
      assert [s[a]] + s[a + 1..b] == s[a..b];
    }
  }

  /** The fields from position `i` on, joined, are the non-whitespace
      characters from `i` on. */
  lemma {:induction false} SplitFromJoins(s: string, i: nat)
    requires i <= |s|
    ensures Concat(SplitFrom(s, i)) == NonSpace(s[i..])
    decreases |s| - i
  {
    var a := SpaceFrom(s, i);
    SpaceRunDrops(s, i, a);
    if a < |s| {
      var b := WordFrom(s, a);
      WordRunKeeps(s, a, b);
      SplitFromJoins(s, b);
      var ws := [s[a..b]] + SplitFrom(s, b);
      assert ws[1..] == SplitFrom(s, b);
    } else {
      assert s[a..] == [];
    }
  }

  lemma {:induction false} SplitFromYieldsWords(s: string, i: nat)
    requires i <= |s|
    ensures forall k :: 0 <= k < |SplitFrom(s, i)| ==> IsWord(SplitFrom(s, i)[k])
    decreases |s| - i
  {
    var a := SpaceFrom(s, i);
    if a < |s| {
      var b := WordFrom(s, a);
      assert IsWord(s[a..b]) by {
        assert forall k :: 0 <= k < b - a ==> s[a..b][k] == s[a + k];
      }
      SplitFromYieldsWords(s, b);
      var rest := SplitFrom(s, b);
      assert forall k :: 0 < k <= |rest| ==> ([s[a..b]] + rest)[k] == rest[k - 1];
    }
  }

  /** Every field `split()` yields is a word. */
  lemma SplitYieldsWords(s: string)
    ensures forall k :: 0 <= k < |Split(s)| ==> IsWord(Split(s)[k])
  {
    SplitFromYieldsWords(s, 0);
  }

  /** A string that starts with a non-whitespace character has a first field,
      and that field starts the string. */
  lemma SplitFirstField(s: string)
    requires s != [] && !IsSpace(s[0])
    ensures Split(s) != [] && Split(s)[0] != [] && Split(s)[0][0] == s[0]
  {
    assert SpaceFrom(s, 0) == 0;
    var b := WordFrom(s, 0);
    assert Split(s)[0] == s[0..b];
  }

  /** The first field from position `j` on, when `s` has a word at `a..b`
      after whitespace from `j`. */
  lemma SplitFromWord(s: string, j: nat, a: nat, b: nat)
    requires j <= a < b <= |s|
    requires forall k :: j <= k < a ==> IsSpace(s[k])
    requires forall k :: a <= k < b ==> !IsSpace(s[k])
    requires b == |s| || IsSpace(s[b])
    ensures SplitFrom(s, j) != [] && SplitFrom(s, j)[0] == s[a..b]
    ensures SplitFrom(s, j)[1..] == SplitFrom(s, b)
  {
    SpaceFromIs(s, j, a);
    WordFromIs(s, a, b);
  }

  /** Only whitespace from `j` on: no more fields. */
  lemma SplitFromNone(s: string, j: nat)
    requires j <= |s|
    requires forall k :: j <= k < |s| ==> IsSpace(s[k])
    ensures SplitFrom(s, j) == []
  {
    SpaceFromIs(s, j, |s|);
  }

  /** A single word with only whitespace around it is the one field. */
  lemma SplitOneWord(lead: string, w: string, tail: string)
    requires AllSpace(lead) && IsWord(w) && AllSpace(tail)
    ensures Split(lead + w + tail) == [w]
  {
    var s := lead + w + tail;
    var a := |lead|;
    var b := |lead| + |w|;
    assert forall k :: 0 <= k < a ==> s[k] == lead[k];
    assert forall k :: a <= k < b ==> s[k] == w[k - a];
    assert forall k :: b <= k < |s| ==> s[k] == tail[k - b];
    assert s[a..b] == w;
    SplitFromWord(s, 0, a, b);
    SplitFromNone(s, b);
  }

  /** A word is its own one field. */
  lemma SplitWord(w: string)
    requires IsWord(w)
    ensures Split(w) == [w]
  {
    assert [] + w + [] == w;
    SplitOneWord([], w, []);
  }

  /** The next field from position `j`, when there is one: it starts after
      whitespace only and ends at whitespace or at the end. */
  lemma SplitFromNext(s: string, j: nat) returns (a: nat, b: nat)
    requires j <= |s| && SplitFrom(s, j) != []
    ensures j <= a < b <= |s|
    ensures forall k :: j <= k < a ==> IsSpace(s[k])
    ensures forall k :: a <= k < b ==> !IsSpace(s[k])
    ensures SplitFrom(s, j)[0] == s[a..b] && SplitFrom(s, j)[1..] == SplitFrom(s, b)
    ensures b == |s| || IsSpace(s[b])
  {
    a := SpaceFrom(s, j);
    b := WordFrom(s, a);
    SplitFromWord(s, j, a, b);
  }

  /** A string with two whitespace-free pieces at `a0..b0` and `a1..b1`,
      cut into its five parts. */
  lemma FiveParts(s: string, a0: nat, b0: nat, a1: nat, b1: nat)
    requires a0 <= b0 <= a1 <= b1 <= |s|
    ensures s == s[..a0] + s[a0..b0] + s[b0..a1] + s[a1..b1] + s[b1..]
  {
  }

  /** A run of whitespace given by positions is all whitespace as a slice. */
  lemma SpaceSlice(s: string, i: nat, j: nat)
    requires i <= j <= |s|
    requires forall k :: i <= k < j ==> IsSpace(s[k])
    ensures AllSpace(s[i..j])
  {
    assert forall k :: 0 <= k < j - i ==> s[i..j][k] == s[i + k];
  }

  lemma SecondIsHeadOfRest(xs: seq<string>, ys: seq<string>)
    requires |xs| >= 2 && xs[1..] == ys
    ensures ys != [] && xs[1] == ys[0]
  {
    assert xs[1..][0] == xs[1];
  }

  /** The converse of `SplitLeading`: a string with at least two fields is
      whitespace, the first field, whitespace, the second field, and then
      nothing or a part that starts with whitespace. */
  lemma SplitTwoFields(s: string) returns (lead: string, sep: string, tail: string)
    requires |Split(s)| >= 2
    ensures AllSpace(lead) && sep != [] && AllSpace(sep) && (tail == [] || IsSpace(tail[0]))
    ensures s == lead + Split(s)[0] + sep + Split(s)[1] + tail
  {
    var a0, b0 := SplitFromNext(s, 0);
    SecondIsHeadOfRest(SplitFrom(s, 0), SplitFrom(s, b0));
    var a1, b1 := SplitFromNext(s, b0);
    assert b0 < a1 by {
      assert IsSpace(s[b0]) && !IsSpace(s[a1]);
    }
    lead, sep, tail := s[..a0], s[b0..a1], s[b1..];
    SpaceSlice(s, 0, a0);
    assert s[..a0] == s[0..a0];
    SpaceSlice(s, b0, a1);
    FiveParts(s, a0, b0, a1, b1);
  }

  /** A word followed by whitespace is the first field; the other fields
      come after it. */
  lemma SplitFirstWord(first: string, rest: string)
    requires IsWord(first) && rest != [] && IsSpace(rest[0])
    ensures Split(first + rest) != [] && Split(first + rest)[0] == first
    ensures Split(first + rest)[1..] == SplitFrom(first + rest, |first|)
  {
    var s := first + rest;
    assert forall k :: 0 <= k < |first| ==> s[k] == first[k];
    assert s[|first|] == rest[0];
    SplitFromWord(s, 0, 0, |first|);
    assert s[0..|first|] == first;
  }

  /** After a prefix `p`, whitespace and then a word followed by nothing or by
      whitespace: that word is the next field. */
  lemma SplitNextWord(p: string, sep: string, second: string, tail: string)
    requires AllSpace(sep) && IsWord(second)
    requires tail == [] || IsSpace(tail[0])
    ensures SplitFrom(p + sep + second + tail, |p|) != []
    ensures SplitFrom(p + sep + second + tail, |p|)[0] == second
  {
    var s := p + sep + second + tail;
    var m2 := |p| + |sep|;
    var m3 := m2 + |second|;
    PiecesOf(p, sep, second, tail);
    SplitFromWordAt(s, |p|, m2, m3);
  }

  /** Where the pieces of `p + sep + second + tail` sit. */
  lemma PiecesOf(p: string, sep: string, second: string, tail: string)
    ensures var s := p + sep + second + tail;
      && s[|p|..|p| + |sep|] == sep
      && s[|p| + |sep|..|p| + |sep| + |second|] == second
      && (tail != [] ==> s[|p| + |sep| + |second|] == tail[0])
  {
  }

  /** `SplitFromWord` with the whitespace and the word given as slices. */
  lemma SplitFromWordAt(s: string, j: nat, a: nat, b: nat)
    requires j <= a <= b <= |s|
    requires AllSpace(s[j..a]) && IsWord(s[a..b]) && (b == |s| || IsSpace(s[b]))
    ensures SplitFrom(s, j) != [] && SplitFrom(s, j)[0] == s[a..b]
  {
    assert forall k :: j <= k < a ==> s[k] == s[j..a][k - j];
    assert forall k :: a <= k < b ==> s[k] == s[a..b][k - a];
    SplitFromWord(s, j, a, b);
  }

  /** A word, whitespace and a second word, followed by nothing or by
      whitespace: `split()` yields those two words first. */
  lemma SplitLeading(first: string, sep: string, second: string, tail: string)
    requires IsWord(first) && IsWord(second)
    requires sep != [] && AllSpace(sep)
    requires tail == [] || IsSpace(tail[0])
    ensures |Split(first + sep + second + tail)| >= 2
    ensures Split(first + sep + second + tail)[0] == first
    ensures Split(first + sep + second + tail)[1] == second
  {
    var s := first + sep + second + tail;
    assert s == first + (sep + second + tail);
    SplitFirstWord(first, sep + second + tail);
    SplitNextWord(first, sep, second, tail);
    assert Split(s)[1] == Split(s)[1..][0];
  }

  /** Leading whitespace in front of a string that starts with non-whitespace
      is all that `strip()` removes at the front. */
  lemma StripAfterSpace(lead: string, s: string)
    requires AllSpace(lead) && s != [] && !IsSpace(s[0])
    ensures Strip(lead + s) == TrimEnd(s)
  {
    var line := lead + s;
    assert forall k :: 0 <= k < |lead| ==> line[k] == lead[k];
    assert line[|lead|] == s[0];
    SpaceFromIs(line, 0, |lead|);
    assert TrimStart(line) == s;
  }

  /** Whitespace after a string that ends in non-whitespace is exactly what
      stripping the end removes. */
  lemma TrimEndSpaceTail(w: string, tail: string)
    requires w != [] && !IsSpace(w[|w| - 1]) && AllSpace(tail)
    ensures TrimEnd(w + tail) == w
  {
    var u := w + tail;
    assert u[|w| - 1] == w[|w| - 1];
    TrimEndKeeps(u, |w|);
    assert forall k :: |w| <= k < |u| ==> IsSpace(u[k]) by {
      assert forall k :: |w| <= k < |u| ==> u[k] == tail[k - |w|];
    }
    assert u[..|w|] == w;
  }

  /** `strip()` of one word with only whitespace around it is that word. */
  lemma StripOneWord(lead: string, w: string, tail: string)
    requires AllSpace(lead) && IsWord(w) && AllSpace(tail)
    ensures Strip(lead + w + tail) == w
  {
    assert lead + w + tail == lead + (w + tail);
    assert (w + tail)[0] == w[0];
    StripAfterSpace(lead, w + tail);
    TrimEndSpaceTail(w, tail);
  }

  /** Two runs of whitespace make one. */
  lemma AllSpaceConcat(a: string, b: string)
    requires AllSpace(a) && AllSpace(b)
    ensures AllSpace(a + b)
  {
    assert forall k :: |a| <= k < |a + b| ==> (a + b)[k] == b[k - |a|];
  }

  /** Trimming the end keeps everything up to the last non-whitespace
      character. */
  lemma TrimEndKeeps(s: string, n: nat)
    requires 0 < n <= |s| && !IsSpace(s[n - 1])
    ensures n <= |TrimEnd(s)|
  {
    var r := TrimEnd(s);
    assert forall k :: |r| <= k < |s| ==> IsSpace(s[k]) by {
      assert forall k :: |r| <= k < |s| ==> s[|r|..][k - |r|] == s[k];
    }
  }

  /** Trimming the end of `p + rest`, where `p` ends with non-whitespace,
      keeps all of `p` and a prefix of `rest`. */
  lemma TrimEndAfter(p: string, rest: string) returns (n: nat)
    requires p != [] && !IsSpace(p[|p| - 1])
    ensures n <= |rest| && TrimEnd(p + rest) == p + rest[..n]
  {
    var u := p + rest;
    assert u[|p| - 1] == p[|p| - 1];
    TrimEndKeeps(u, |p|);
    n := |TrimEnd(u)| - |p|;
    assert u[..|p| + n] == p + rest[..n];
  }

  /** `s.startswith(p)`. */
  predicate StartsWith(s: string, p: string)
  {
    |p| <= |s| && s[..|p|] == p
  }

  /** Starting with a one-character string is having that first character. */
  lemma StartsWithChar(s: string, ch: char)
    ensures StartsWith(s, [ch]) <==> s != [] && s[0] == ch
  {
    if s != [] && s[0] == ch {
      assert s[..1] == [ch];
    }
  }

  /** `sub` occurs in `s` starting at position k. */
  predicate OccursAt(s: string, sub: string, k: int)
  {
    0 <= k && k + |sub| <= |s| && s[k..k + |sub|] == sub
  }

  /** `sub in s`, tested at each position from the left. */
  predicate Contains(s: string, sub: string)
    decreases |s|
  {
    StartsWith(s, sub) || (s != [] && Contains(s[1..], sub))
  }

  /** `sub in s` holds exactly when `sub` occurs at some position of `s`. */
  lemma {:induction false} ContainsIff(s: string, sub: string)
    ensures Contains(s, sub) <==> exists k :: OccursAt(s, sub, k)
    decreases |s|
  {
    if StartsWith(s, sub) {
      assert OccursAt(s, sub, 0);
    } else if s != [] {
      ContainsIff(s[1..], sub);
      forall k | OccursAt(s, sub, k)
        ensures OccursAt(s[1..], sub, k - 1)
      {
        assert s[1..][k - 1..k - 1 + |sub|] == s[k..k + |sub|];
      }
      forall k | OccursAt(s[1..], sub, k)
        ensures OccursAt(s, sub, k + 1)
      {
        assert s[1..][k..k + |sub|] == s[k + 1..k + 1 + |sub|];
      }
    }
  }

  /** `lower()` for one character; only ASCII letters are folded. */
  function LowerChar(ch: char): char
  {
    if 'A' <= ch <= 'Z' then (ch as int - 'A' as int + 'a' as int) as char else ch
  }

  /** `s.lower()`, folding ASCII letters only. */
  function Lower(s: string): (r: string)
    ensures |r| == |s|
  {
    seq(|s|, k requires 0 <= k < |s| => LowerChar(s[k]))
  }

  /** The upper-case letter of a lower-case ASCII letter. */
  function UpperChar(ch: char): char
    requires 'a' <= ch <= 'z'
  {
    (ch as int - 'a' as int + 'A' as int) as char
  }

  /** A string lower-cases to a word of lower-case ASCII letters exactly when
      it has that word's length and each character is the word's letter in
      either case. */
  lemma LowerIs(s: string, w: string)
    requires forall k :: 0 <= k < |w| ==> 'a' <= w[k] <= 'z'
    ensures Lower(s) == w <==> |s| == |w| && forall k :: 0 <= k < |s| ==> s[k] == w[k] || s[k] == UpperChar(w[k])
  {
    if |s| == |w| {
      assert Lower(s) == w <==> forall k :: 0 <= k < |s| ==> Lower(s)[k] == w[k];
    }
  }
}
