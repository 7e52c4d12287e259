/** Text primitives shared by the filters: ASCII case mapping, the code-point
    lexicographic order on strings, joining and splitting, and substring search. */
module Text {
  import opened Values

  predicate IsUpper(c: char) { 'A' <= c <= 'Z' }

  predicate IsLower(c: char) { 'a' <= c <= 'z' }

  function ToLower(c: char): char
  {
    if IsUpper(c) then (c as int + 32) as char else c
  }

  function ToUpper(c: char): char
  {
    if IsLower(c) then (c as int - 32) as char else c
  }

  /** Every character folded to lower case. */
  function Lowercase(s: string): (r: string)
    ensures |r| == |s|
    ensures forall k :: 0 <= k < |s| ==> r[k] == ToLower(s[k])
  {
    if s == [] then [] else [ToLower(s[0])] + Lowercase(s[1..])
  }

  // ---------------------------------------------------------------------------
  // Lexicographic order by code point

  /** `a` comes no later than `b` when compared character by character by code
      point, a proper prefix coming first. */
  predicate LexLe(a: string, b: string)
  {
    if a == [] then true
    else if b == [] then false
    else if a[0] != b[0] then a[0] < b[0]
    else LexLe(a[1..], b[1..])
  }

  lemma {:induction false} LexLeReflexive(a: string)
    ensures LexLe(a, a)
  {
    if a != [] { LexLeReflexive(a[1..]); }
  }

  lemma {:induction false} LexLeTotal(a: string, b: string)
    ensures LexLe(a, b) || LexLe(b, a)
  {
    if a != [] && b != [] && a[0] == b[0] { LexLeTotal(a[1..], b[1..]); }
  }

  lemma {:induction false} LexLeAntisymmetric(a: string, b: string)
    requires LexLe(a, b) && LexLe(b, a)
    ensures a == b
  {
    if a != [] && b != [] {
      LexLeAntisymmetric(a[1..], b[1..]);
      assert a == [a[0]] + a[1..] && b == [b[0]] + b[1..];
    }
  }

  lemma {:induction false} LexLeTransitive(a: string, b: string, c: string)
    requires LexLe(a, b) && LexLe(b, c)
    ensures LexLe(a, c)
  {
    if a != [] && b != [] && c != [] && a[0] == b[0] && b[0] == c[0] {
      LexLeTransitive(a[1..], b[1..], c[1..]);
    }
  }

  /** Comparison by code point sorts every upper-case ASCII letter before every
      lower-case one, whatever follows them. */
  lemma UpperBeforeLower(a: string, b: string)
    requires a != [] && b != [] && IsUpper(a[0]) && IsLower(b[0])
    ensures LexLe(a, b) && !LexLe(b, a)
  {
  }

  // ---------------------------------------------------------------------------
  // Joining and splitting

  /** The parts with `sep` between each two consecutive ones. */
  function JoinWith(parts: seq<string>, sep: string): string
  {
    if parts == [] then ""
    else if |parts| == 1 then parts[0]
    else parts[0] + sep + JoinWith(parts[1..], sep)
  }

  /** The pieces of `s` between occurrences of `c` (at least one piece). */
  function SplitOn(s: string, c: char): (r: seq<string>)
    ensures |r| > 0
  {
    if s == [] then [""]
    else if s[0] == c then [""] + SplitOn(s[1..], c)
    else
      var rest := SplitOn(s[1..], c);
      [[s[0]] + rest[0]] + rest[1..]
  }

  lemma {:induction false} SplitOnPlain(p: string, rest: string, c: char)
    requires c !in p
    ensures SplitOn(p, c) == [p]
    ensures SplitOn(p + [c] + rest, c) == [p] + SplitOn(rest, c)
  {
    if p == [] {
      assert p + [c] + rest == [c] + rest;
      assert ([c] + rest)[1..] == rest;
    } else {
      SplitOnPlain(p[1..], rest, c);
      assert (p + [c] + rest)[1..] == p[1..] + [c] + rest;
      assert [p[0]] + p[1..] == p;
    }
  }

  /** Joining with a one-character separator that occurs in no part is undone
      by splitting on that character. */
  lemma {:induction false} SplitJoinRoundTrip(parts: seq<string>, c: char)
    requires |parts| > 0
    requires forall k :: 0 <= k < |parts| ==> c !in parts[k]
    ensures SplitOn(JoinWith(parts, [c]), c) == parts
  {
    if |parts| == 1 {
      SplitOnPlain(parts[0], "", c);
    } else {
      SplitJoinRoundTrip(parts[1..], c);
      SplitOnPlain(parts[0], JoinWith(parts[1..], [c]), c);
      assert parts == [parts[0]] + parts[1..];
    }
  }

  /** The length of a joined text: every part, plus one separator per gap. */
  lemma {:induction false} JoinWithLength(parts: seq<string>, sep: string)
    requires |parts| > 0
    ensures |JoinWith(parts, sep)| == TotalLength(parts) + (|parts| - 1) * |sep|
  {
    if |parts| > 1 {
      JoinWithLength(parts[1..], sep);
      var n := |parts| - 1;
      assert n * |sep| == (n - 1) * |sep| + |sep| by {
        MulStep(n - 1, |sep|);
      }
    }
  }

  lemma MulStep(a: nat, b: nat)
    ensures (a + 1) * b == a * b + b
  {
  }

  function TotalLength(parts: seq<string>): nat
  {
    if parts == [] then 0 else |parts[0]| + TotalLength(parts[1..])
  }

  // ---------------------------------------------------------------------------
  // Subsequences

  /** `a` is `b` with some characters deleted: its characters occur in `b` in
      the same order. */
  predicate IsSubseq(a: string, b: string)
    decreases |b|
  {
    if a == [] then true
    else if b == [] then false
    else (a[0] == b[0] && IsSubseq(a[1..], b[1..])) || IsSubseq(a, b[1..])
  }

  /** Dropping a prefix of the larger text keeps a subsequence one. */
  lemma {:induction false} SubseqOfSuffix(a: string, b: string, j: nat)
    requires j <= |b| && IsSubseq(a, b[j..])
    ensures IsSubseq(a, b)
    decreases j
  {
    if j > 0 {
      assert b[j - 1..][1..] == b[j..];
      SubseqOfSuffix(a, b, j - 1);
    }
  }

  /** A character kept in front of a subsequence of the rest. */
  lemma SubseqCons(c: char, a: string, b: string)
    requires b != [] && b[0] == c && IsSubseq(a, b[1..])
    ensures IsSubseq([c] + a, b)
  {
    assert ([c] + a)[0] == c && ([c] + a)[1..] == a;
  }

  lemma {:induction false} SubseqTransitive(a: string, b: string, c: string)
    requires IsSubseq(a, b) && IsSubseq(b, c)
    ensures IsSubseq(a, c)
    decreases |c|
  {
    if a != [] {
      if b[0] == c[0] && IsSubseq(b[1..], c[1..]) {
        if a[0] == b[0] && IsSubseq(a[1..], b[1..]) {
          SubseqTransitive(a[1..], b[1..], c[1..]);
        } else {
          SubseqTransitive(a, b[1..], c[1..]);
        }
      } else {
        SubseqTransitive(a, b, c[1..]);
      }
    }
  }

  /** A subsequence is no longer than the text it is taken from. */
  lemma {:induction false} SubseqShorter(a: string, b: string)
    requires IsSubseq(a, b)
    ensures |a| <= |b|
    decreases |b|
  {
    if a != [] {
      if a[0] == b[0] && IsSubseq(a[1..], b[1..]) {
        SubseqShorter(a[1..], b[1..]);
      } else {
        SubseqShorter(a, b[1..]);
      }
    }
  }

  /** Every character of a subsequence occurs in the text it is taken from. */
  lemma {:induction false} SubseqElements(a: string, b: string)
    requires IsSubseq(a, b)
    ensures forall c :: c in a ==> c in b
    decreases |b|
  {
    if a != [] {
      assert forall c :: c in b[1..] ==> c in b;
      if a[0] == b[0] && IsSubseq(a[1..], b[1..]) {
        SubseqElements(a[1..], b[1..]);
        assert forall c :: c in a ==> c == a[0] || c in a[1..];
      } else {
        SubseqElements(a, b[1..]);
      }
    }
  }

  // ---------------------------------------------------------------------------
  // Substring search

  /** `pat` occurs in `s` starting at position `i`. */
  predicate OccursAt(s: string, pat: string, i: nat)
  {
    i + |pat| <= |s| && s[i..i + |pat|] == pat
  }

  predicate Contains(s: string, pat: string)
  {
    exists i: nat :: i <= |s| && OccursAt(s, pat, i)
  }

  /** A pattern holding a character the text lacks does not occur in it. */
  lemma AbsentCharRulesOut(s: string, pat: string, c: char)
    requires c in pat && c !in s
    ensures !Contains(s, pat)
  {
    var m :| 0 <= m < |pat| && pat[m] == c;
    forall i: nat | i <= |s| ensures !OccursAt(s, pat, i) {
      if i + |pat| <= |s| {
        assert s[i..i + |pat|][m] == s[i + m] != c;
      }
    }
  }

  /** The first position at which `pat` occurs in `s`, if any. */
  function IndexOf(s: string, pat: string): (r: Option<nat>)
    requires pat != []
    ensures r.Some? ==> OccursAt(s, pat, r.value)
    ensures r.Some? ==> forall j: nat :: j < r.value ==> !OccursAt(s, pat, j)
    ensures r.None? ==> forall j: nat :: j <= |s| ==> !OccursAt(s, pat, j)
    decreases |s|
  {
    if |s| < |pat| then None
    else if s[..|pat|] == pat then Some(0)
    else
      match IndexOf(s[1..], pat)
      case None =>
        assert forall j: nat :: 1 <= j <= |s| ==> !OccursAt(s, pat, j) by {
          forall j: nat | 1 <= j <= |s| ensures !OccursAt(s, pat, j) { OccursShifted(s, pat, j); }
        }
        None
      case Some(k) =>
        assert OccursAt(s, pat, k + 1) by { OccursShifted(s, pat, k + 1); }
        assert forall j: nat :: 1 <= j < k + 1 ==> !OccursAt(s, pat, j) by {
          forall j: nat | 1 <= j < k + 1 ensures !OccursAt(s, pat, j) { OccursShifted(s, pat, j); }
        }
        Some(k + 1)
  }

  /** An occurrence after the first position is an occurrence in the tail. */
  lemma OccursShifted(s: string, pat: string, j: nat)
    requires 1 <= j <= |s|
    ensures OccursAt(s, pat, j) <==> OccursAt(s[1..], pat, j - 1)
  {
    if j + |pat| <= |s| {
      assert s[1..][j - 1..j - 1 + |pat|] == s[j..j + |pat|];
    }
  }
}
