/**
 * The few string operations of Python's `str` that the guard uses:
 * `lower`, `strip`, `in` (substring), `endswith`, `split`, `rsplit`,
 * `replace`, `" ".join` and decimal formatting of integers.
 * Characters are Unicode scalar values; case folding and whitespace are
 * modelled for ASCII only.
 */
module Text {

  /** `str.isspace()` on ASCII: space, \t \n \v \f \r and the separators \x1c..\x1f. */
  predicate IsSpace(c: char) {
    c == ' ' || ('\t' <= c <= '\r') || ('\U{1C}' <= c <= '\U{1F}')
  }

  function LowerChar(c: char): char {
    if 'A' <= c <= 'Z' then (c as int + 32) as char else c
  }

  /** `str.lower()` on ASCII letters. */
  function Lower(s: string): (r: string)
    ensures |r| == |s|
    ensures forall i :: 0 <= i < |s| ==> r[i] == LowerChar(s[i])
  {
    if s == [] then [] else [LowerChar(s[0])] + Lower(s[1..])
  }

  function StripLeft(s: string): (r: string)
    ensures |r| <= |s| && r == s[|s| - |r|..]
    ensures r != [] ==> !IsSpace(r[0])
    ensures forall k :: 0 <= k < |s| - |r| ==> IsSpace(s[k])
  {
    if s != [] && IsSpace(s[0]) then StripLeft(s[1..]) else s
  }

  function StripRight(s: string): (r: string)
    ensures r <= s
    ensures r != [] ==> !IsSpace(r[|r| - 1])
    ensures forall k :: |r| <= k < |s| ==> IsSpace(s[k])
  {
    if s != [] && IsSpace(s[|s| - 1]) then StripRight(s[..|s| - 1]) else s
  }

  /** `r` is `s[i..j]`, and everything of `s` outside that piece is whitespace. */
  predicate StripCut(s: string, r: string, i: int, j: int) {
    0 <= i <= j <= |s| && r == s[i..j]
    && (forall k :: 0 <= k < i ==> IsSpace(s[k]))
    && (forall k :: j <= k < |s| ==> IsSpace(s[k]))
  }

  /**
   * `str.strip()`: the piece of `s` left once the whitespace at both ends is
   * cut off; the piece neither starts nor ends with whitespace.
   */
  function Strip(s: string): (r: string)
    ensures r != [] ==> !IsSpace(r[0]) && !IsSpace(r[|r| - 1])
  {
    StripRight(StripLeft(s))
  }

  /** `Strip(s)` is a contiguous piece of `s` with only whitespace around it. */
  lemma StripPiece(s: string)
    ensures exists i, j :: StripCut(s, Strip(s), i, j)
  {
    var l := StripLeft(s);
    var r := StripRight(l);
    CutBothEnds(s, l, r);
    assert Strip(s) == r;
  }

  /**
   * Cutting whitespace off the front of `s` (leaving `l`) and then off the
   * back of `l` (leaving `r`) leaves a piece of `s` with only whitespace
   * around it.
   */
  lemma CutBothEnds(s: string, l: string, r: string)
    requires |l| <= |s| && l == s[|s| - |l|..]
    requires forall k :: 0 <= k < |s| - |l| ==> IsSpace(s[k])
    requires r <= l && forall k :: |r| <= k < |l| ==> IsSpace(l[k])
    ensures StripCut(s, r, |s| - |l|, |s| - |l| + |r|)
  {
    var i := |s| - |l|;
    PrefixOfSuffix(s, i, r);
    var j := i + |r|;
    forall k | j <= k < |s| ensures IsSpace(s[k]) {
      assert s[k] == l[k - i];
    }
  }

  /** A prefix of the suffix of `s` from i is the piece of `s` from i of the same length. */
  lemma PrefixOfSuffix(s: string, i: nat, r: string)
    requires i <= |s| && r <= s[i..]
    ensures i + |r| <= |s| && r == s[i..i + |r|]
  {
  }

  /** Trimmed text has no whitespace at either end and is its own strip. */
  lemma StripTrimmed(t: string)
    requires Trimmed(t)
    ensures Strip(t) == t
  {
    assert StripLeft(t) == t;
  }

  /** Python's `sub in s`: `sub` occurs in `s` at some position. */
  predicate Contains(s: string, sub: string) {
    exists i :: 0 <= i <= |s| - |sub| && sub <= s[i..]
  }

  lemma ContainsAt(s: string, sub: string, i: nat)
    requires i + |sub| <= |s| && s[i..i + |sub|] == sub
    ensures Contains(s, sub)
  {
    assert sub <= s[i..];
  }

  /** Substring containment is transitive. */
  lemma ContainsTransitive(a: string, b: string, c: string)
    requires Contains(a, b) && Contains(b, c)
    ensures Contains(a, c)
  {
    var i :| 0 <= i <= |a| - |b| && b <= a[i..];
    var j :| 0 <= j <= |b| - |c| && c <= b[j..];
    forall k | 0 <= k < |c| ensures c[k] == a[i + j + k] {
      assert c[k] == b[j + k];
      assert b[j + k] == a[i..][j + k];
    }
    assert c <= a[i + j..];
  }

  /** `s.endswith(suffix)`. */
  predicate EndsWith(s: string, suffix: string) {
    |suffix| <= |s| && s[|s| - |suffix|..] == suffix
  }

  /** The part before the first `c` of a text made of a `c`-free part, `c` and anything. */
  lemma BeforeFirstAt(x: string, c: char, y: string)
    requires c !in x
    ensures BeforeFirst(x + [c] + y, c) == x
  {
    var s := x + [c] + y;
    assert s[|x|] == c;
    assert BeforeFirst(s, c) == s[..|x|];
  }

  /** Text holding `c` is the part before its first `c`, that `c`, and the rest. */
  lemma BeforeFirstSplit(s: string, c: char)
    requires c in s
    ensures var b := BeforeFirst(s, c); s == b + [c] + s[|b| + 1..]
  {
    var b := BeforeFirst(s, c);
    CutAt(s, b, c);
  }

  /** A prefix followed in `s` by `c` splits `s` into the prefix, `c` and the rest. */
  lemma CutAt(s: string, b: string, c: char)
    requires b <= s && |b| < |s| && s[|b|] == c
    ensures s == b + [c] + s[|b| + 1..]
  {
    var t := b + [c] + s[|b| + 1..];
    assert |t| == |s|;
    forall i | 0 <= i < |s| ensures t[i] == s[i] {
      if i < |b| {
        assert t[i] == b[i];
      } else if i > |b| {
        assert t[i] == s[|b| + 1..][i - |b| - 1];
      }
    }
  }

  /** `s.split(c)[0]`: the part of `s` before the first `c`. */
  function BeforeFirst(s: string, c: char): (r: string)
    ensures r <= s && c !in r
    ensures c in s ==> |r| < |s| && s[|r|] == c
    ensures c !in s ==> r == s
  {
    if s == [] then []
    else if s[0] == c then []
    else [s[0]] + BeforeFirst(s[1..], c)
  }

  /**
   * The greatest start position k <= i at which `sep` occurs in `s`,
   * or -1 when there is none (see LastOccurrenceSpec).
   */
  function LastOccurrence(s: string, sep: string, i: int): (r: int)
    requires i <= |s| - |sep|
    ensures -1 <= r && (r >= 0 ==> r <= i)
    decreases i + 1
  {
    if i < 0 then -1
    else if sep <= s[i..] then i
    else LastOccurrence(s, sep, i - 1)
  }

  /** The position found holds `sep`, and no later position up to i does. */
  lemma {:induction false} LastOccurrenceSpec(s: string, sep: string, i: int)
    requires i <= |s| - |sep|
    ensures var r := LastOccurrence(s, sep, i);
            (r >= 0 ==> sep <= s[r..]) && forall k :: r < k <= i ==> !(sep <= s[k..])
    decreases i + 1
  {
    if i >= 0 && !(sep <= s[i..]) {
      LastOccurrenceSpec(s, sep, i - 1);
    }
  }

  /**
   * `s.rsplit(sep, 1)[0]`: the part of `s` before the last occurrence of
   * `sep`, or all of `s` when `sep` does not occur (Python rejects an
   * empty separator). BeforeLastSpec states what it is.
   */
  function BeforeLast(s: string, sep: string): (r: string)
    requires sep != []
    ensures r <= s
  {
    var k := LastOccurrence(s, sep, |s| - |sep|);
    if k >= 0 then s[..k] else s
  }

  /**
   * When `sep` occurs, the result is followed in `s` by `sep` and no later
   * position holds `sep`; when it does not occur, the result is all of `s`.
   */
  lemma BeforeLastSpec(s: string, sep: string)
    requires sep != []
    ensures var r := BeforeLast(s, sep);
            (Contains(s, sep) ==>
               |r| + |sep| <= |s| && sep <= s[|r|..]
               && forall k :: |r| < k <= |s| - |sep| ==> !(sep <= s[k..]))
            && (!Contains(s, sep) ==> r == s)
  {
    var k := LastOccurrence(s, sep, |s| - |sep|);
    LastOccurrenceSpec(s, sep, |s| - |sep|);
    if k < 0 {
      assert forall i :: 0 <= i <= |s| - |sep| ==> !(sep <= s[i..]);
    } else {
      assert |BeforeLast(s, sep)| == k;
    }
  }

  /** The last occurrence of `sep` at position p, with none after it, cuts `s` at p. */
  lemma BeforeLastAt(s: string, sep: string, p: nat)
    requires sep != [] && p + |sep| <= |s| && s[p..p + |sep|] == sep
    requires forall k :: p < k <= |s| - |sep| ==> !(sep <= s[k..])
    ensures BeforeLast(s, sep) == s[..p]
  {
    assert sep <= s[p..];
    var k := LastOccurrence(s, sep, |s| - |sep|);
    LastOccurrenceSpec(s, sep, |s| - |sep|);
    assert k == p;
  }

  /**
   * `s.replace(c, '')` for a single character `c`: no `c` is left, every
   * other character keeps its number of occurrences, and text without `c`
   * is returned unchanged (RemoveCharAppend states that the order is kept).
   */
  function RemoveChar(s: string, c: char): (r: string)
    ensures c !in r
    ensures forall x :: x != c ==> multiset(r)[x] == multiset(s)[x]
    ensures c !in s ==> r == s
  {
    if s == [] then []
    else
      assert s == [s[0]] + s[1..];
      if s[0] == c then RemoveChar(s[1..], c)
      else [s[0]] + RemoveChar(s[1..], c)
  }

  /** Removing two characters can be done in either order. */
  lemma {:induction false} RemoveCharSwap(s: string, a: char, b: char)
    ensures RemoveChar(RemoveChar(s, a), b) == RemoveChar(RemoveChar(s, b), a)
  {
    if s != [] {
      RemoveCharSwap(s[1..], a, b);
      var x := s[0];
      var ra := RemoveChar(s[1..], a);
      var rb := RemoveChar(s[1..], b);
      if x != a {
        assert ([x] + ra)[0] == x && ([x] + ra)[1..] == ra;
      }
      if x != b {
        assert ([x] + rb)[0] == x && ([x] + rb)[1..] == rb;
      }
    }
  }

  /** Removing a character works piece by piece, so the remaining characters keep their order. */
  lemma {:induction false} RemoveCharAppend(a: string, b: string, c: char)
    ensures RemoveChar(a + b, c) == RemoveChar(a, c) + RemoveChar(b, c)
  {
    if a == [] {
      assert a + b == b;
    } else {
      assert (a + b)[0] == a[0] && (a + b)[1..] == a[1..] + b;
      RemoveCharAppend(a[1..], b, c);
    }
  }

  /** No two stars in a row. */
  predicate NoDoubleStar(s: string) {
    forall i :: 0 <= i < |s| - 1 ==> !(s[i] == '*' && s[i + 1] == '*')
  }

  /**
   * `s.replace('**', '')`: removes non-overlapping pairs of stars, left to
   * right, leaving no two stars in a row (RemoveDoubleStarsKeeps states
   * what is kept).
   */
  function RemoveDoubleStars(s: string): (r: string)
    ensures forall x :: x in r ==> x in s
    ensures s != [] && s[0] != '*' ==> r != [] && r[0] == s[0]
    ensures NoDoubleStar(r)
  {
    if |s| >= 2 && s[0] == '*' && s[1] == '*' then RemoveDoubleStars(s[2..])
    else if s == [] then []
    else [s[0]] + RemoveDoubleStars(s[1..])
  }

  /**
   * Every character other than the star keeps its number of occurrences,
   * and text without two stars in a row is returned unchanged.
   */
  lemma RemoveDoubleStarsKeeps(s: string)
    ensures forall x :: x != '*' ==> multiset(RemoveDoubleStars(s))[x] == multiset(s)[x]
    ensures NoDoubleStar(s) ==> RemoveDoubleStars(s) == s
  {
    RemoveDoubleStarsCounts(s);
    if NoDoubleStar(s) {
      RemoveDoubleStarsUnchanged(s);
    }
  }

  /** `a` and `b` hold every character other than the star equally often. */
  predicate SameNonStars(a: string, b: string) {
    forall x :: x != '*' ==> multiset(a)[x] == multiset(b)[x]
  }

  lemma {:induction false} RemoveDoubleStarsCounts(s: string)
    ensures SameNonStars(RemoveDoubleStars(s), s)
    decreases |s|
  {
    if |s| >= 2 && s[0] == '*' && s[1] == '*' {
      var rest := s[2..];
      RemoveDoubleStarsCounts(rest);
      RemoveDoubleStarsPair(s);
      assert s == ['*', '*'] + rest;
      SameNonStarsPair(RemoveDoubleStars(rest), rest);
    } else if s != [] {
      var rest := s[1..];
      RemoveDoubleStarsCounts(rest);
      RemoveDoubleStarsKeep(s);
      assert s == [s[0]] + rest;
      SameNonStarsCons(s[0], RemoveDoubleStars(rest), rest);
    }
  }

  lemma SameNonStarsPair(a: string, b: string)
    requires SameNonStars(a, b)
    ensures SameNonStars(a, ['*', '*'] + b)
  {
    assert multiset(['*', '*'] + b) == multiset{'*', '*'} + multiset(b);
  }

  lemma SameNonStarsCons(c: char, a: string, b: string)
    requires SameNonStars(a, b)
    ensures SameNonStars([c] + a, [c] + b)
  {
    assert multiset([c] + a) == multiset{c} + multiset(a);
    assert multiset([c] + b) == multiset{c} + multiset(b);
  }

  lemma {:induction false} RemoveDoubleStarsUnchanged(s: string)
    requires NoDoubleStar(s)
    ensures RemoveDoubleStars(s) == s
    decreases |s|
  {
    if s != [] {
      NoDoubleStarSlice(s, 1, |s|);
      assert s[1..|s|] == s[1..];
      RemoveDoubleStarsUnchanged(s[1..]);
      RemoveDoubleStarsKeep(s);
      assert s == [s[0]] + s[1..];
    }
  }

  /** Removing pairs of stars keeps every other character in its place: only stars go. */
  lemma {:induction false} RemoveDoubleStarsOrder(s: string)
    ensures RemoveChar(RemoveDoubleStars(s), '*') == RemoveChar(s, '*')
    decreases |s|
  {
    if |s| >= 2 && s[0] == '*' && s[1] == '*' {
      RemoveDoubleStarsOrder(s[2..]);
      assert s[1..][0] == '*' && s[1..][1..] == s[2..];
    } else if s != [] {
      RemoveDoubleStarsOrder(s[1..]);
      var r := [s[0]] + RemoveDoubleStars(s[1..]);
      assert r[0] == s[0] && r[1..] == RemoveDoubleStars(s[1..]);
    }
  }

  /** `k` stars. */
  function Stars(k: nat): (r: string)
    ensures |r| == k && forall i :: 0 <= i < k ==> r[i] == '*'
  {
    if k == 0 then [] else ['*'] + Stars(k - 1)
  }

  /** A run of at least two stars before `x` starts with two stars, then the shorter run and `x`. */
  lemma StarsDrop2(k: nat, x: string)
    requires k >= 2
    ensures var s := Stars(k) + x; s[0] == '*' && s[1] == '*' && s[2..] == Stars(k - 2) + x
  {
    assert Stars(k) == ['*'] + (['*'] + Stars(k - 2));
  }

  /** A run of stars on its own keeps one star when the run is odd and none when it is even. */
  lemma {:induction false} RemoveDoubleStarsStars(k: nat)
    ensures RemoveDoubleStars(Stars(k)) == Stars(k % 2)
    decreases k
  {
    if k >= 2 {
      RemoveDoubleStarsStars(k - 2);
      ParityStep(k);
      RemoveDoubleStarsDropPair(k, []);
      assert Stars(k) + [] == Stars(k) && Stars(k - 2) + [] == Stars(k - 2);
    } else if k == 1 {
      var one := Stars(1);
      assert one == ['*'] && one[1..] == [];
      RemoveDoubleStarsKeep(one);
      assert RemoveDoubleStars(one) == one;
    } else {
      assert Stars(0) == [];
    }
  }

  /**
   * A run of stars before another character keeps one star when the run is
   * odd and none when it is even; that character is kept and the rest is
   * processed on its own. With RemoveDoubleStarsStars this fixes the result
   * for every text.
   */
  lemma RemoveDoubleStarsRun(k: nat, c: char, t: string)
    requires c != '*'
    ensures RemoveDoubleStars(Stars(k) + [c] + t) == Stars(k % 2) + [c] + RemoveDoubleStars(t)
  {
    var ct := [c] + t;
    RemoveDoubleStarsRunBefore(k, ct);
    RemoveDoubleStarsKeep(ct);
    assert ct[1..] == t;
    assert Stars(k) + [c] + t == Stars(k) + ct;
    assert Stars(k % 2) + [c] + RemoveDoubleStars(t) == Stars(k % 2) + ([c] + RemoveDoubleStars(t));
  }

  /** A run of stars before text that does not start with a star. */
  lemma {:induction false} RemoveDoubleStarsRunBefore(k: nat, x: string)
    requires x != [] && x[0] != '*'
    ensures RemoveDoubleStars(Stars(k) + x) == Stars(k % 2) + RemoveDoubleStars(x)
    decreases k
  {
    if k >= 2 {
      RemoveDoubleStarsRunBefore(k - 2, x);
      ParityStep(k);
      RemoveDoubleStarsDropPair(k, x);
    } else if k == 1 {
      RemoveDoubleStarsOneBefore(x);
    } else {
      assert Stars(0) + x == x;
    }
  }

  lemma RemoveDoubleStarsOneBefore(x: string)
    requires x != [] && x[0] != '*'
    ensures RemoveDoubleStars(Stars(1) + x) == Stars(1) + RemoveDoubleStars(x)
  {
    var s := Stars(1) + x;
    assert s == ['*'] + x && s[1..] == x;
    RemoveDoubleStarsKeep(s);
  }

  /** Two stars at the front of a run go together. */
  lemma RemoveDoubleStarsDropPair(k: nat, x: string)
    requires k >= 2
    ensures RemoveDoubleStars(Stars(k) + x) == RemoveDoubleStars(Stars(k - 2) + x)
  {
    StarsDrop2(k, x);
    RemoveDoubleStarsPair(Stars(k) + x);
  }

  lemma ParityStep(k: nat)
    requires k >= 2
    ensures (k - 2) % 2 == k % 2
  {
  }

  lemma RemoveDoubleStarsPair(s: string)
    requires |s| >= 2 && s[0] == '*' && s[1] == '*'
    ensures RemoveDoubleStars(s) == RemoveDoubleStars(s[2..])
  {
  }

  lemma RemoveDoubleStarsKeep(s: string)
    requires s != [] && !(|s| >= 2 && s[0] == '*' && s[1] == '*')
    ensures RemoveDoubleStars(s) == [s[0]] + RemoveDoubleStars(s[1..])
  {
  }

  /** Length of the leading run of non-whitespace characters. */
  function WordLength(s: string): (n: nat)
    ensures n <= |s|
    ensures forall i :: 0 <= i < n ==> !IsSpace(s[i])
    ensures n < |s| ==> IsSpace(s[n])
  {
    if s == [] || IsSpace(s[0]) then 0 else 1 + WordLength(s[1..])
  }

  /** A word of `str.split()`: non-empty and free of whitespace. */
  predicate IsWord(w: string) {
    w != [] && forall i :: 0 <= i < |w| ==> !IsSpace(w[i])
  }

  /** The characters of `s` that are not whitespace, in order. */
  function NonSpace(s: string): (r: string)
    ensures forall i :: 0 <= i < |r| ==> !IsSpace(r[i])
  {
    if s == [] then [] else (if IsSpace(s[0]) then [] else [s[0]]) + NonSpace(s[1..])
  }

  lemma {:induction false} NonSpaceAppend(a: string, b: string)
    ensures NonSpace(a + b) == NonSpace(a) + NonSpace(b)
  {
    if a == [] {
      assert a + b == b;
    } else {
      assert (a + b)[0] == a[0] && (a + b)[1..] == a[1..] + b;
      NonSpaceAppend(a[1..], b);
    }
  }

  /** Removing a character other than whitespace and dropping whitespace can be done in either order. */
  lemma {:induction false} NonSpaceRemoveChar(s: string, c: char)
    requires !IsSpace(c)
    ensures NonSpace(RemoveChar(s, c)) == RemoveChar(NonSpace(s), c)
  {
    if s != [] {
      NonSpaceRemoveChar(s[1..], c);
      var ns := if IsSpace(s[0]) then [] else [s[0]];
      assert NonSpace(s) == ns + NonSpace(s[1..]);
      RemoveCharAppend(ns, NonSpace(s[1..]), c);
      if s[0] != c {
        var r := [s[0]] + RemoveChar(s[1..], c);
        assert r[0] == s[0] && r[1..] == RemoveChar(s[1..], c);
      }
    }
  }

  /** Text made of whitespace only has no non-whitespace characters. */
  lemma {:induction false} NonSpaceOfSpaces(s: string)
    requires forall k :: 0 <= k < |s| ==> IsSpace(s[k])
    ensures NonSpace(s) == []
  {
    if s != [] {
      NonSpaceOfSpaces(s[1..]);
    }
  }

  lemma PrefixSplit(s: string, p: string)
    requires p <= s
    ensures s == p + s[|p|..]
  {
  }

  lemma SuffixSplit(s: string, q: string)
    requires |q| <= |s| && q == s[|s| - |q|..]
    ensures s == s[..|s| - |q|] + q
  {
  }

  /** Stripping drops only whitespace. */
  lemma NonSpaceStrip(s: string)
    ensures NonSpace(Strip(s)) == NonSpace(s)
  {
    var l := StripLeft(s);
    var r := StripRight(l);
    var front := s[..|s| - |l|];
    var back := l[|r|..];
    SuffixSplit(s, l);
    PrefixSplit(l, r);
    assert forall k :: 0 <= k < |front| ==> IsSpace(front[k]);
    assert forall k :: 0 <= k < |back| ==> IsSpace(back[k]) by {
      forall k | 0 <= k < |back| ensures IsSpace(back[k]) {
        assert back[k] == l[|r| + k];
      }
    }
    NonSpaceOfSpaces(front);
    NonSpaceOfSpaces(back);
    NonSpaceAppend(front, l);
    NonSpaceAppend(r, back);
    assert Strip(s) == r;
  }

  /** A character other than whitespace occurs in the non-whitespace part exactly when it occurs in the text. */
  lemma {:induction false} NonSpaceMembers(s: string)
    ensures forall x :: !IsSpace(x) ==> (x in NonSpace(s) <==> x in s)
  {
    if s != [] {
      NonSpaceMembers(s[1..]);
      assert s == [s[0]] + s[1..];
    }
  }

  /** Text without whitespace is its own non-whitespace part. */
  lemma {:induction false} NonSpaceOfWord(w: string)
    requires forall i :: 0 <= i < |w| ==> !IsSpace(w[i])
    ensures NonSpace(w) == w
  {
    if w != [] {
      NonSpaceOfWord(w[1..]);
    }
  }

  /** The words of a list, concatenated. */
  function Concat(ws: seq<string>): string {
    if ws == [] then "" else ws[0] + Concat(ws[1..])
  }

  /**
   * `s.split()`: the maximal runs of non-whitespace characters, in order:
   * non-empty words without whitespace that together spell out the
   * non-whitespace characters of `s`.
   */
  function Words(s: string): (ws: seq<string>)
    ensures forall k :: 0 <= k < |ws| ==> IsWord(ws[k])
    ensures Concat(ws) == NonSpace(s)
    ensures s != [] && !IsSpace(s[0]) ==> ws != []
    decreases |s|
  {
    if s == [] then []
    else if IsSpace(s[0]) then
      Words(s[1..])
    else
      var n := WordLength(s);
      var w := s[..n];
      var rest := Words(s[n..]);
      assert s == w + s[n..];
      NonSpaceAppend(w, s[n..]);
      NonSpaceOfWord(w);
      assert ([w] + rest)[0] == w && ([w] + rest)[1..] == rest;
      [w] + rest
  }

  /** A single word splits into itself. */
  lemma WordsOfWord(w: string)
    requires IsWord(w)
    ensures Words(w) == [w]
  {
    assert WordLength(w) == |w|;
    assert w[..|w|] == w && w[|w|..] == [];
  }

  /** Splitting at a whitespace character: the words on either side, in order. */
  lemma {:induction false} WordsSplit(a: string, c: char, b: string)
    requires IsSpace(c)
    ensures Words(a + [c] + b) == Words(a) + Words(b)
    decreases |a|, 2
  {
    if a == [] {
      var t := a + [c] + b;
      assert t == [c] + b && t[1..] == b;
      WordsAtSpace(t);
    } else if IsSpace(a[0]) {
      WordsSplitSpace(a, c, b);
    } else {
      WordsSplitWord(a, c, b);
    }
  }

  lemma {:induction false} WordsSplitSpace(a: string, c: char, b: string)
    requires IsSpace(c) && a != [] && IsSpace(a[0])
    ensures Words(a + [c] + b) == Words(a) + Words(b)
    decreases |a|, 0
  {
    var t := a + [c] + b;
    assert t[0] == a[0] && t[1..] == a[1..] + [c] + b;
    WordsSplit(a[1..], c, b);
    WordsAtSpace(t);
    WordsAtSpace(a);
  }

  lemma WordsSplitWord(a: string, c: char, b: string)
    requires IsSpace(c) && a != [] && !IsSpace(a[0])
    ensures Words(a + [c] + b) == Words(a) + Words(b)
    decreases |a|, 1
  {
    var m := WordLength(a);
    WordLengthExtend(a, c, b);
    WordsAtWordBefore(a, c, b);
    WordsAtWord(a);
    WordsSplitAfterWord(a, c, b);
    ConsAppend(a[..m], Words(a[m..]), Words(b));
  }

  lemma ConsAppend<T>(w: T, x: seq<T>, y: seq<T>)
    ensures [w] + (x + y) == [w] + x + y
  {
  }

  /** The first word of `a` stays the first word when a whitespace character and `b` follow. */
  lemma WordsAtWordBefore(a: string, c: char, b: string)
    requires a != [] && !IsSpace(a[0]) && WordLength(a + [c] + b) == WordLength(a)
    ensures var m := WordLength(a); Words(a + [c] + b) == [a[..m]] + Words((a + [c] + b)[m..])
  {
    var t := a + [c] + b;
    var m := WordLength(a);
    assert t[0] == a[0] && t[..m] == a[..m];
    WordsAtWord(t);
  }

  lemma {:induction false} WordsSplitAfterWord(a: string, c: char, b: string)
    requires IsSpace(c) && a != [] && !IsSpace(a[0])
    ensures var m := WordLength(a); Words((a + [c] + b)[m..]) == Words(a[m..]) + Words(b)
    decreases |a|, 0
  {
    var t := a + [c] + b;
    var m := WordLength(a);
    if m == |a| {
      assert t[m..] == [c] + b && ([c] + b)[1..] == b;
      WordsAtSpace([c] + b);
      assert Words(a[m..]) == [] by { assert a[m..] == []; }
    } else {
      assert t[m..] == a[m..] + [c] + b;
      WordsSplit(a[m..], c, b);
    }
  }

  lemma WordsAtSpace(s: string)
    requires s != [] && IsSpace(s[0])
    ensures Words(s) == Words(s[1..])
  {
  }

  lemma WordsAtWord(s: string)
    requires s != [] && !IsSpace(s[0])
    ensures Words(s) == [s[..WordLength(s)]] + Words(s[WordLength(s)..])
  {
  }

  lemma WordLengthExtend(a: string, c: char, b: string)
    requires IsSpace(c)
    ensures WordLength(a + [c] + b) == WordLength(a)
    decreases |a|
  {
    var t := a + [c] + b;
    if a != [] && !IsSpace(a[0]) {
      assert t[1..] == a[1..] + [c] + b;
      WordLengthExtend(a[1..], c, b);
    }
  }

  /** `" ".join(ws)`. */
  function JoinWords(ws: seq<string>): string {
    if ws == [] then ""
    else if |ws| == 1 then ws[0]
    else ws[0] + " " + JoinWords(ws[1..])
  }

  /**
   * Text in which the only whitespace is a single space between two other
   * characters: no other whitespace character, no leading space, no two
   * spaces in a row.
   */
  predicate Collapsed(s: string) {
    && (forall i :: 0 <= i < |s| && IsSpace(s[i]) ==> s[i] == ' ')
    && (|s| > 0 ==> s[0] != ' ')
    && (forall i :: 0 <= i < |s| - 1 ==> !(s[i] == ' ' && s[i + 1] == ' '))
  }

  /** Collapsed, and with no trailing space either. */
  predicate Trimmed(s: string) {
    Collapsed(s) && (|s| > 0 ==> s[|s| - 1] != ' ')
  }

  lemma CollapsedPrefix(s: string, n: nat)
    requires Collapsed(s) && n <= |s|
    ensures Collapsed(s[..n])
  {
  }

  lemma CollapsedAppend(s: string, c: char)
    requires Collapsed(s) && !IsSpace(c)
    ensures Collapsed(s + [c])
  {
    var t := s + [c];
    forall i | 0 <= i < |t| - 1 ensures !(t[i] == ' ' && t[i + 1] == ' ') {
      if i < |s| - 1 {
        assert t[i] == s[i] && t[i + 1] == s[i + 1];
      } else {
        assert t[i + 1] == c;
      }
    }
  }

  lemma TrimmedJoin(a: string, b: string)
    requires Trimmed(a) && Trimmed(b) && a != [] && b != []
    ensures Trimmed(a + " " + b)
  {
    var t := a + " " + b;
    assert |t| == |a| + 1 + |b|;
    forall i | 0 <= i < |t| && IsSpace(t[i]) ensures t[i] == ' ' {
      if i < |a| { assert t[i] == a[i]; }
      else if i > |a| { assert t[i] == b[i - |a| - 1]; }
    }
    forall i | 0 <= i < |t| - 1 ensures !(t[i] == ' ' && t[i + 1] == ' ') {
      if i < |a| - 1 {
        assert t[i] == a[i] && t[i + 1] == a[i + 1];
      } else if i == |a| - 1 {
        assert t[i] == a[|a| - 1];
      } else if i == |a| {
        assert t[i + 1] == b[0];
      } else {
        assert t[i] == b[i - |a| - 1] && t[i + 1] == b[i - |a|];
      }
    }
    assert t[0] == a[0];
    assert t[|t| - 1] == b[|b| - 1];
  }

  lemma WordTrimmed(w: string)
    requires IsWord(w)
    ensures Trimmed(w)
  {
  }

  /**
   * Joining words with single spaces gives trimmed, collapsed text, and a
   * character other than the space occurs in it only if it occurs in a word.
   */
  lemma {:induction false} JoinWordsTrimmed(ws: seq<string>)
    requires forall k :: 0 <= k < |ws| ==> IsWord(ws[k])
    ensures Trimmed(JoinWords(ws))
    ensures ws != [] ==> JoinWords(ws) != []
    ensures forall x :: x in JoinWords(ws) && x != ' ' ==> exists k :: 0 <= k < |ws| && x in ws[k]
  {
    if ws == [] {
    } else if |ws| == 1 {
      WordTrimmed(ws[0]);
    } else {
      JoinWordsTrimmed(ws[1..]);
      WordTrimmed(ws[0]);
      TrimmedJoin(ws[0], JoinWords(ws[1..]));
      forall x | x in JoinWords(ws) && x != ' ' ensures exists k :: 0 <= k < |ws| && x in ws[k] {
        if x in ws[0] {
        } else {
          assert x in JoinWords(ws[1..]);
          var k :| 0 <= k < |ws[1..]| && x in ws[1..][k];
          assert x in ws[k + 1];
        }
      }
    }
  }

  /** Joining words with spaces adds only whitespace. */
  lemma {:induction false} NonSpaceJoin(ws: seq<string>)
    requires forall k :: 0 <= k < |ws| ==> IsWord(ws[k])
    ensures NonSpace(JoinWords(ws)) == Concat(ws)
  {
    if ws == [] {
    } else if |ws| == 1 {
      NonSpaceOfWord(ws[0]);
      assert ws[1..] == [];
      assert Concat(ws) == ws[0] + "";
    } else {
      NonSpaceJoin(ws[1..]);
      NonSpaceOfWord(ws[0]);
      NonSpaceAppend(ws[0], " ");
      NonSpaceAppend(ws[0] + " ", JoinWords(ws[1..]));
      assert NonSpace(" ") == [];
    }
  }

  /**
   * `" ".join(s.split())`: collapses every whitespace run to one space and
   * trims the ends, keeping the non-whitespace characters in order.
   */
  function CollapseWhitespace(s: string): (r: string)
    ensures Trimmed(r)
    ensures Words(r) == Words(s)
    ensures NonSpace(r) == NonSpace(s)
    ensures forall x :: x in r && x != ' ' ==> x in s
  {
    var ws := Words(s);
    JoinWordsTrimmed(ws);
    NonSpaceJoin(ws);
    WordsJoin(ws);
    var r := JoinWords(ws);
    NonSpaceMembers(r);
    NonSpaceMembers(s);
    r
  }

  /** Splitting words joined by single spaces gives the words back. */
  lemma {:induction false} WordsJoin(ws: seq<string>)
    requires forall k :: 0 <= k < |ws| ==> IsWord(ws[k])
    ensures Words(JoinWords(ws)) == ws
  {
    if |ws| == 1 {
      WordsOfWord(ws[0]);
    } else if |ws| > 1 {
      WordsOfWord(ws[0]);
      WordsJoin(ws[1..]);
      WordsSplit(ws[0], ' ', JoinWords(ws[1..]));
      assert ws[0] + " " + JoinWords(ws[1..]) == ws[0] + [' '] + JoinWords(ws[1..]);
      assert ws == [ws[0]] + ws[1..];
    }
  }

  /** Text that is already trimmed and collapsed is split and joined back into itself. */
  lemma {:induction false} CollapseTrimmed(t: string)
    requires Trimmed(t)
    ensures CollapseWhitespace(t) == t
    decreases |t|
  {
    if t != [] {
      var n := WordLength(t);
      var w := t[..n];
      if n == |t| {
        assert t[n..] == [];
        assert Words(t) == [w] + [];
      } else {
        var rest := t[n + 1..];
        TrimmedAfterWord(t);
        CollapseTrimmed(rest);
        WordsOfWord(w);
        WordsSplit(w, ' ', rest);
        JoinWordsCons(w, Words(rest));
      }
    }
  }

  /** Trimmed text whose first word is not all of it: that word, one space, and trimmed text. */
  lemma TrimmedAfterWord(t: string)
    requires Trimmed(t) && t != [] && WordLength(t) < |t|
    ensures var n := WordLength(t); var rest := t[n + 1..];
      && IsWord(t[..n]) && t == t[..n] + [' '] + rest
      && rest != [] && !IsSpace(rest[0]) && Trimmed(rest)
  {
    var n := WordLength(t);
    var rest := t[n + 1..];
    assert t[n] == ' ';
    assert rest != [] && !IsSpace(rest[0]);
    assert Trimmed(rest) by {
      forall i | 0 <= i < |rest| - 1 ensures !(rest[i] == ' ' && rest[i + 1] == ' ') {
        assert rest[i] == t[n + 1 + i] && rest[i + 1] == t[n + 2 + i];
      }
    }
    assert t == t[..n] + [' '] + rest;
  }

  lemma JoinWordsCons(w: string, ws: seq<string>)
    requires ws != []
    ensures JoinWords([w] + ws) == w + " " + JoinWords(ws)
  {
    assert ([w] + ws)[0] == w && ([w] + ws)[1..] == ws;
  }

  /** A piece of text without two stars in a row has none either. */
  lemma NoDoubleStarSlice(s: string, i: nat, j: nat)
    requires NoDoubleStar(s) && i <= j <= |s|
    ensures NoDoubleStar(s[i..j])
  {
    var p := s[i..j];
    forall k | 0 <= k < |p| - 1 ensures !(p[k] == '*' && p[k + 1] == '*') {
      assert p[k] == s[i + k] && p[k + 1] == s[i + k + 1];
    }
  }

  /** Joining two pieces without two stars in a row by a space, or ending one with a full stop, makes none. */
  lemma NoDoubleStarJoin(a: string, b: string)
    requires NoDoubleStar(a) && NoDoubleStar(b)
    ensures NoDoubleStar(a + " " + b)
    ensures NoDoubleStar(a + ".")
  {
    var t := a + " " + b;
    forall i | 0 <= i < |t| - 1 ensures !(t[i] == '*' && t[i + 1] == '*') {
      if i < |a| - 1 {
        assert t[i] == a[i] && t[i + 1] == a[i + 1];
      } else if i == |a| - 1 {
        assert t[i + 1] == ' ';
      } else if i == |a| {
        assert t[i] == ' ';
      } else {
        assert t[i] == b[i - |a| - 1] && t[i + 1] == b[i - |a|];
      }
    }
    var u := a + ".";
    forall i | 0 <= i < |u| - 1 ensures !(u[i] == '*' && u[i + 1] == '*') {
      assert u[i] == a[i];
      if i < |a| - 1 {
        assert u[i + 1] == a[i + 1];
      }
    }
  }

  /** The words of text without two stars in a row have none. */
  lemma {:induction false} WordsNoDoubleStar(s: string)
    requires NoDoubleStar(s)
    ensures forall k :: 0 <= k < |Words(s)| ==> NoDoubleStar(Words(s)[k])
    decreases |s|
  {
    if s != [] {
      if IsSpace(s[0]) {
        NoDoubleStarSlice(s, 1, |s|);
        WordsNoDoubleStar(s[1..]);
      } else {
        var n := WordLength(s);
        NoDoubleStarSlice(s, 0, n);
        NoDoubleStarSlice(s, n, |s|);
        assert s[0..n] == s[..n] && s[n..|s|] == s[n..];
        WordsNoDoubleStar(s[n..]);
        assert Words(s) == [s[..n]] + Words(s[n..]);
      }
    }
  }

  /** Joining words without two stars in a row by spaces makes none. */
  lemma {:induction false} JoinNoDoubleStar(ws: seq<string>)
    requires forall k :: 0 <= k < |ws| ==> NoDoubleStar(ws[k])
    ensures NoDoubleStar(JoinWords(ws))
  {
    if |ws| >= 2 {
      JoinNoDoubleStar(ws[1..]);
      NoDoubleStarJoin(ws[0], JoinWords(ws[1..]));
    }
  }

  /** Collapsing whitespace never brings two stars together. */
  lemma CollapseNoDoubleStar(s: string)
    requires NoDoubleStar(s)
    ensures NoDoubleStar(CollapseWhitespace(s))
  {
    WordsNoDoubleStar(s);
    JoinNoDoubleStar(Words(s));
  }

  // ---- decimal formatting ----

  predicate IsDigit(c: char) {
    '0' <= c <= '9'
  }

  predicate IsDigits(s: string) {
    forall i :: 0 <= i < |s| ==> IsDigit(s[i])
  }

  function DigitChar(d: nat): (c: char)
    requires d < 10
    ensures IsDigit(c) && c as int - '0' as int == d
  {
    ('0' as int + d) as char
  }

  /** Python's `str(n)` for a non-negative integer: no leading zero except for 0 itself. */
  function Digits(n: nat): (r: string)
    ensures r != [] && IsDigits(r)
    ensures r[0] == '0' <==> n == 0
    ensures |r| == 1 <==> n < 10
  {
    if n < 10 then [DigitChar(n)] else Digits(n / 10) + [DigitChar(n % 10)]
  }

  /** Python's `int(s)` on a string of decimal digits (leading zeros allowed). */
  function DecimalValue(s: string): nat
    requires IsDigits(s)
  {
    if s == [] then 0
    else DecimalValue(s[..|s| - 1]) * 10 + (s[|s| - 1] as int - '0' as int)
  }

  lemma {:induction false} DigitsRoundTrip(n: nat)
    ensures DecimalValue(Digits(n)) == n
  {
    if n >= 10 {
      DigitsRoundTrip(n / 10);
      var d := Digits(n);
      assert d[..|d| - 1] == Digits(n / 10);
    }
  }

  /** A numeral with a non-zero leading digit is a positive number. */
  lemma {:induction false} LeadingDigitPositive(s: string)
    requires s != [] && IsDigits(s) && s[0] != '0'
    ensures DecimalValue(s) > 0
    decreases |s|
  {
    if |s| > 1 {
      LeadingDigitPositive(s[..|s| - 1]);
    }
  }

  /**
   * The numeral without leading zeros of a number is unique: a digit string
   * that is "0" or starts with a non-zero digit is `str` of its value.
   */
  lemma {:induction false} DigitsCanonical(s: string)
    requires s != [] && IsDigits(s) && (|s| == 1 || s[0] != '0')
    ensures Digits(DecimalValue(s)) == s
    decreases |s|
  {
    var n := DecimalValue(s);
    var c := s[|s| - 1];
    var d := c as int - '0' as int;
    if |s| == 1 {
      assert s[..0] == [] && DecimalValue(s[..0]) == 0;
      assert n == DecimalValue(s[..0]) * 10 + d;
      assert [DigitChar(d)] == s;
    } else {
      var init := s[..|s| - 1];
      LeadingDigitPositive(init);
      DigitsCanonical(init);
      var m := DecimalValue(init);
      assert n == m * 10 + d && 0 <= d < 10;
      assert n / 10 == m && n % 10 == d;
      assert DigitChar(d) == c;
      assert s == init + [c];
    }
  }

  function Pow10(k: nat): (p: nat)
    ensures p > 0
  {
    if k == 0 then 1 else 10 * Pow10(k - 1)
  }

  /** `str(n)` has at most `k` characters exactly when `n < 10^k`. */
  lemma {:induction false} DigitsWidth(n: nat, k: nat)
    requires k >= 1
    ensures |Digits(n)| <= k <==> n < Pow10(k)
    decreases k
  {
    if k == 1 {
      assert Pow10(1) == 10;
    } else {
      assert Pow10(k) == 10 * Pow10(k - 1);
      assert Pow10(k - 1) >= 1;
      if n >= 10 {
        DigitsWidth(n / 10, k - 1);
        assert |Digits(n)| == |Digits(n / 10)| + 1;
        assert n / 10 < Pow10(k - 1) <==> n < 10 * Pow10(k - 1);
      } else {
        assert Pow10(k - 1) >= 1;
      }
    }
  }

  function Zeros(k: nat): (r: string)
    ensures |r| == k && IsDigits(r)
    ensures forall i :: 0 <= i < k ==> r[i] == '0'
  {
    if k == 0 then [] else Zeros(k - 1) + ['0']
  }

  lemma {:induction false} ZerosValue(k: nat)
    ensures DecimalValue(Zeros(k)) == 0
  {
    if k > 0 {
      ZerosValue(k - 1);
      assert Zeros(k)[..k - 1] == Zeros(k - 1);
    }
  }

  /** Leading zeros do not change the value of a decimal numeral. */
  lemma {:induction false} LeadingZerosValue(k: nat, s: string)
    requires IsDigits(s)
    ensures IsDigits(Zeros(k) + s)
    ensures DecimalValue(Zeros(k) + s) == DecimalValue(s)
    decreases |s|
  {
    var t := Zeros(k) + s;
    assert IsDigits(t) by {
      forall i | 0 <= i < |t| ensures IsDigit(t[i]) {
        if i >= k { assert t[i] == s[i - k]; }
      }
    }
    if s == [] {
      assert t == Zeros(k);
      ZerosValue(k);
    } else {
      assert t[..|t| - 1] == Zeros(k) + s[..|s| - 1];
      LeadingZerosValue(k, s[..|s| - 1]);
    }
  }

  /** Python's `f"{n:0{width}d}"`: `str(n)` left-padded with zeros to at least `width` characters. */
  function ZeroPad(n: nat, width: nat): (r: string)
    ensures |r| == if |Digits(n)| < width then width else |Digits(n)|
    ensures IsDigits(r)
    ensures DecimalValue(r) == n
  {
    var d := Digits(n);
    DigitsRoundTrip(n);
    var k := if |d| < width then width - |d| else 0;
    LeadingZerosValue(k, d);
    Zeros(k) + d
  }
}
