/**
 The pieces of Python's `str` that the reference normaliser is built from:
 `s.find(c)` for a one-character argument, the slice `s[lo:hi]` with
 non-negative bounds, `s.replace(old, new)`, and, as an independent reference
 for `replace`, `s.split(sep)`, `sep.join(parts)` and the test `sub in s`.
 Strings are sequences of characters.
 */
module PyStr {

  function Min(a: int, b: int): int { if a <= b then a else b }

  /** `s.find(c)`: the index of the first `c` in `s`, or -1 when there is none. */
  function Find(s: string, c: char): (r: int)
    ensures -1 <= r < |s|
    ensures r == -1 <==> c !in s
    ensures 0 <= r ==> s[r] == c && c !in s[..r]
  {
    if s == [] then -1
    else if s[0] == c then 0
    else
      var k := Find(s[1..], c);
      assert s[1..] == s[..|s|][1..];
      if k == -1 then -1
      else
        assert s[..k + 1] == [s[0]] + s[1..][..k];
        k + 1
  }

  /** `s[lo:hi]` for non-negative bounds: both bounds are clamped to `len(s)`,
      and the slice is empty when the clamped `hi` does not exceed `lo`. */
  function Slice(s: string, lo: nat, hi: nat): (r: string)
    ensures |r| == if lo < Min(hi, |s|) then Min(hi, |s|) - lo else 0
    ensures forall k :: 0 <= k < |r| ==> r[k] == s[lo + k]
  {
    if lo < Min(hi, |s|) then s[lo..Min(hi, |s|)] else []
  }

  /** `sub in s`: `sub` occurs somewhere in `s` (the empty string occurs everywhere). */
  predicate Contains(s: string, sub: string)
    decreases |s|
  {
    sub <= s || (s != [] && Contains(s[1..], sub))
  }

  /** `s.replace('', rep)`: `rep` before every character and once more at the end. */
  function Interleave(s: string, rep: string): (r: string)
    ensures |r| == |s| + (|s| + 1) * |rep|
    ensures rep == [] ==> r == s
  {
    if s == [] then rep
    else rep + [s[0]] + Interleave(s[1..], rep)
  }

  /** `s.replace(pat, rep)`: scanning left to right, every occurrence of a
      non-empty `pat` that does not overlap an earlier one is replaced by `rep`. */
  function Replace(s: string, pat: string, rep: string): (r: string)
    ensures |pat| > 0 && |rep| <= |pat| ==> |r| <= |s|
    decreases |s|
  {
    if pat == [] then Interleave(s, rep)
    else if s == [] then []
    else if pat <= s then rep + Replace(s[|pat|..], pat, rep)
    else [s[0]] + Replace(s[1..], pat, rep)
  }

  /** `s.split(sep)` for a non-empty `sep`: the pieces between the occurrences
      of `sep` found scanning left to right. */
  function Split(s: string, sep: string): (r: seq<string>)
    requires sep != []
    ensures |r| >= 1
    decreases |s|
  {
    if s == [] then [[]]
    else if sep <= s then [[]] + Split(s[|sep|..], sep)
    else
      var t := Split(s[1..], sep);
      [[s[0]] + t[0]] + t[1..]
  }

  /** `sep.join(parts)`. */
  function Join(sep: string, parts: seq<string>): (r: string)
    ensures |parts| == 1 ==> r == parts[0]
  {
    if parts == [] then []
    else if |parts| == 1 then parts[0]
    else parts[0] + sep + Join(sep, parts[1..])
  }

  /** `s` with every `c` removed. */
  function Without(s: string, c: char): (r: string)
    ensures c !in r
    ensures |r| <= |s|
  {
    if s == [] then []
    else if s[0] == c then Without(s[1..], c)
    else [s[0]] + Without(s[1..], c)
  }

  /** `r` can be obtained from `s` by deleting characters, the rest kept in order. */
  predicate IsSubsequence(r: string, s: string)
    decreases |s|
  {
    r == [] || (s != [] && ((r[0] == s[0] && IsSubsequence(r[1..], s[1..])) || IsSubsequence(r, s[1..])))
  }

  // ---------------------------------------------------------------------
  // Split and Join

  /** Prepending to the first part of a join prepends to the joined string. */
  lemma JoinConsHead(sep: string, a: string, parts: seq<string>)
    requires |parts| >= 1
    ensures Join(sep, [a + parts[0]] + parts[1..]) == a + Join(sep, parts)
  {
    var ps := [a + parts[0]] + parts[1..];
    assert ps[1..] == parts[1..];
  }

  /** A string opening with `p` is `p` followed by the rest. */
  lemma PrefixThenRest(p: string, s: string)
    requires p <= s
    ensures s == p + s[|p|..]
  {
    assert s == s[..|p|] + s[|p|..];
  }

  /** Joining a first part onto at least one more. */
  lemma JoinCons(sep: string, a: string, parts: seq<string>)
    requires |parts| >= 1
    ensures Join(sep, [a] + parts) == a + sep + Join(sep, parts)
  {
    assert ([a] + parts)[1..] == parts;
  }

  /** Joining the pieces of a split with the separator gives back the string. */
  lemma {:induction false} SplitJoin(s: string, sep: string)
    requires sep != []
    ensures Join(sep, Split(s, sep)) == s
    decreases |s|
  {
    if s == [] {
    } else if sep <= s {
      SplitJoin(s[|sep|..], sep);
      SplitJoinAtSeparator(s, sep);
    } else {
      SplitJoin(s[1..], sep);
      SplitJoinPastChar(s, sep);
    }
  }

  /** The step of SplitJoin where the string opens with the separator. */
  lemma SplitJoinAtSeparator(s: string, sep: string)
    requires sep != [] && s != [] && sep <= s
    requires Join(sep, Split(s[|sep|..], sep)) == s[|sep|..]
    ensures Join(sep, Split(s, sep)) == s
  {
    var t := Split(s[|sep|..], sep);
    var e: string := [];
    assert Split(s, sep) == [e] + t;
    JoinCons(sep, e, t);
    assert e + sep == sep;
    PrefixThenRest(sep, s);
  }

  /** The step of SplitJoin where the string does not open with the separator. */
  lemma SplitJoinPastChar(s: string, sep: string)
    requires sep != [] && s != [] && !(sep <= s)
    requires Join(sep, Split(s[1..], sep)) == s[1..]
    ensures Join(sep, Split(s, sep)) == s
  {
    var t := Split(s[1..], sep);
    calc {
      Join(sep, Split(s, sep));
      Join(sep, [[s[0]] + t[0]] + t[1..]);
      { JoinConsHead(sep, [s[0]], t); }
      [s[0]] + Join(sep, t);
      [s[0]] + s[1..];
      s;
    }
  }

  /** The first piece of a split is a prefix of the string. */
  lemma {:induction false} SplitHeadIsPrefix(s: string, sep: string)
    requires sep != []
    ensures Split(s, sep)[0] <= s
    decreases |s|
  {
    if s != [] && !(sep <= s) {
      SplitHeadIsPrefix(s[1..], sep);
      var t := Split(s[1..], sep);
      assert [s[0]] + t[0] == s[..|t[0]| + 1];
    }
  }

  /** No piece of a split contains the separator: every occurrence the
      left-to-right scan meets is cut out. */
  lemma {:induction false} SplitPiecesAreFree(s: string, sep: string)
    requires sep != []
    ensures forall k :: 0 <= k < |Split(s, sep)| ==> !Contains(Split(s, sep)[k], sep)
    decreases |s|
  {
    if s == [] {
      assert !Contains([], sep);
    } else if sep <= s {
      SplitPiecesAreFree(s[|sep|..], sep);
      var t := Split(s[|sep|..], sep);
      assert !Contains([], sep);
      forall k | 0 <= k < |[[]] + t| ensures !Contains(([[]] + t)[k], sep) {
        if k > 0 { assert ([[]] + t)[k] == t[k - 1]; }
      }
    } else {
      SplitPiecesAreFree(s[1..], sep);
      SplitHeadIsPrefix(s[1..], sep);
      var t := Split(s[1..], sep);
      var h := [s[0]] + t[0];
      assert h <= s by { assert h == s[..|h|]; }
      assert !(sep <= h);
      assert h[1..] == t[0];
      assert !Contains(h, sep);
      forall k | 0 <= k < |[h] + t[1..]| ensures !Contains(([h] + t[1..])[k], sep) {
        if k > 0 { assert ([h] + t[1..])[k] == t[k]; }
      }
    }
  }

  /** The split stops at the leftmost occurrence: when there is more than one
      piece, the separator starts right after the first piece, starts at no
      earlier position, and the other pieces are the split of what follows it. */
  lemma {:induction false} SplitFirstOccurrence(s: string, sep: string)
    requires sep != [] && |Split(s, sep)| > 1
    ensures var t0 := Split(s, sep)[0];
      && |t0| + |sep| <= |s|
      && sep <= s[|t0|..]
      && (forall p :: 0 <= p < |t0| ==> !(sep <= s[p..]))
      && Split(s, sep) == [t0] + Split(s[|t0| + |sep|..], sep)
    decreases |s|
  {
    if sep <= s {
      assert s[0..] == s;
    } else {
      var t := Split(s[1..], sep);
      assert Split(s, sep) == [[s[0]] + t[0]] + t[1..];
      SplitFirstOccurrence(s[1..], sep);
      var t0 := [s[0]] + t[0];
      assert s[|t0|..] == s[1..][|t[0]|..];
      assert s[|t0| + |sep|..] == s[1..][|t[0]| + |sep|..];
      NoEarlierOccurrence(s, sep, |t0|);
    }
  }

  /** An occurrence that starts neither at 0 nor anywhere in `s[1..]` before
      `n - 1` starts nowhere in `s` before `n`. */
  lemma NoEarlierOccurrence(s: string, sep: string, n: nat)
    requires 0 < n <= |s| && !(sep <= s)
    requires forall p :: 0 <= p < n - 1 ==> !(sep <= s[1..][p..])
    ensures forall p :: 0 <= p < n ==> !(sep <= s[p..])
  {
    forall p | 0 <= p < n ensures !(sep <= s[p..]) {
      if p > 0 {
        assert s[p..] == s[1..][p - 1..];
      } else {
        assert s[0..] == s;
      }
    }
  }

  /** `list(s)`: each character as a one-character string. */
  function Chars(s: string): (r: seq<string>)
    ensures |r| == |s|
    ensures forall k :: 0 <= k < |s| ==> r[k] == [s[k]]
  {
    seq(|s|, k requires 0 <= k < |s| => [s[k]])
  }

  /** For a non-empty string, `s.replace('', rep) == rep + rep.join(list(s)) + rep`:
      `rep` stands before every character, between neighbours and at the end. */
  lemma {:induction false} InterleaveIsJoin(s: string, rep: string)
    requires s != []
    ensures Interleave(s, rep) == rep + Join(rep, Chars(s)) + rep
    decreases |s|
  {
    if |s| == 1 {
      assert Chars(s) == [[s[0]]];
      assert s[1..] == [];
    } else {
      InterleaveIsJoin(s[1..], rep);
      assert Chars(s) == [[s[0]]] + Chars(s[1..]);
      JoinCons(rep, [s[0]], Chars(s[1..]));
    }
  }

  // ---------------------------------------------------------------------
  // Replace

  /** For a non-empty pattern, `s.replace(pat, rep) == rep.join(s.split(pat))`. */
  lemma {:induction false} ReplaceIsJoinOfSplit(s: string, pat: string, rep: string)
    requires pat != []
    ensures Replace(s, pat, rep) == Join(rep, Split(s, pat))
    decreases |s|
  {
    if s == [] {
    } else if pat <= s {
      var t := Split(s[|pat|..], pat);
      ReplaceIsJoinOfSplit(s[|pat|..], pat, rep);
      assert Split(s, pat) == [[]] + t;
      JoinCons(rep, [], t);
      assert Replace(s, pat, rep) == rep + Replace(s[|pat|..], pat, rep);
    } else {
      var t := Split(s[1..], pat);
      ReplaceIsJoinOfSplit(s[1..], pat, rep);
      assert Split(s, pat) == [[s[0]] + t[0]] + t[1..];
      JoinConsHead(rep, [s[0]], t);
      assert Replace(s, pat, rep) == [s[0]] + Replace(s[1..], pat, rep);
    }
  }

  /** A window of the tail of `s` is the window of `s` one place further on. */
  lemma SliceOfTail(s: string, lo: nat, hi: nat)
    requires 1 <= lo <= hi <= |s|
    ensures s[1..][lo - 1..hi - 1] == s[lo..hi]
  {
  }

  /** A window of a string occurs in it. */
  lemma {:induction false} ContainsWindow(s: string, lo: nat, hi: nat)
    requires lo <= hi <= |s|
    ensures Contains(s, s[lo..hi])
    decreases lo
  {
    if lo == 0 {
      assert s[lo..hi] == s[..hi - lo];
    } else {
      SliceOfTail(s, lo, hi);
      ContainsWindow(s[1..], lo - 1, hi - 1);
    }
  }

  /** A string without an occurrence of the pattern is returned unchanged. */
  lemma {:induction false} ReplaceWithoutOccurrence(s: string, pat: string, rep: string)
    requires pat != [] && !Contains(s, pat)
    ensures Replace(s, pat, rep) == s
    decreases |s|
  {
    if s != [] {
      ReplaceWithoutOccurrence(s[1..], pat, rep);
      assert s == [s[0]] + s[1..];
    }
  }

  /** Deleting a pattern that does occur makes the string strictly shorter. */
  lemma {:induction false} DeleteOccurrenceShortens(s: string, pat: string)
    requires pat != [] && Contains(s, pat)
    ensures |Replace(s, pat, [])| < |s|
    decreases |s|
  {
    if !(pat <= s) {
      DeleteOccurrenceShortens(s[1..], pat);
    }
  }

  /** Deleting a non-empty pattern leaves the string as it was exactly when the
      pattern does not occur in it. */
  lemma DeleteUnchangedIff(s: string, pat: string)
    requires pat != []
    ensures Replace(s, pat, []) == s <==> !Contains(s, pat)
  {
    if Contains(s, pat) {
      DeleteOccurrenceShortens(s, pat);
    } else {
      ReplaceWithoutOccurrence(s, pat, []);
    }
  }

  /** A pattern cannot occur in a string that lacks its first character. */
  lemma {:induction false} NotContainsWithoutHead(s: string, pat: string)
    requires pat != [] && pat[0] !in s
    ensures !Contains(s, pat)
    decreases |s|
  {
    if s != [] {
      NotContainsWithoutHead(s[1..], pat);
    }
  }

  /** A leading stretch free of the pattern's first character is copied
      unchanged in front of the rest's replacement. */
  lemma {:induction false} ReplaceKeepsPrefix(s: string, k: nat, pat: string, rep: string)
    requires pat != [] && k <= |s| && pat[0] !in s[..k]
    ensures Replace(s, pat, rep) == s[..k] + Replace(s[k..], pat, rep)
    decreases k
  {
    if k > 0 {
      assert s[0] == s[..k][0];
      assert s[1..][..k - 1] == s[..k][1..];
      ReplaceKeepsPrefix(s[1..], k - 1, pat, rep);
      assert s[1..][k - 1..] == s[k..];
      assert s[..k] == [s[0]] + s[1..][..k - 1];
    }
  }

  /** Deleting a one-character pattern removes every copy of that character. */
  lemma {:induction false} DeleteCharIsWithout(s: string, c: char)
    ensures Replace(s, [c], []) == Without(s, c)
    decreases |s|
  {
    if s != [] {
      DeleteCharIsWithout(s[1..], c);
      assert [c] <= s <==> s[0] == c;
    }
  }

  /** Appending a character the pattern does not contain cannot make the
      pattern a prefix. */
  lemma PrefixOfAppend(pat: string, s: string, c: char)
    requires c !in pat
    ensures pat <= s + [c] <==> pat <= s
  {
    var sc := s + [c];
    if pat <= sc {
      assert sc[|s|] == c;
      assert |pat| != |sc| by { assert sc == pat + sc[|pat|..]; }
      assert pat == sc[..|pat|] == s[..|pat|];
    }
    if pat <= s {
      assert pat == s[..|pat|] == sc[..|pat|];
    }
  }

  /** A character that cannot occur in the pattern, appended to the string,
      is appended to the result. */
  lemma {:induction false} ReplaceAppendChar(s: string, pat: string, rep: string, c: char)
    requires pat != [] && c !in pat
    ensures Replace(s + [c], pat, rep) == Replace(s, pat, rep) + [c]
    decreases |s|
  {
    var sc := s + [c];
    if s == [] {
      assert !(pat <= sc);
      assert sc[1..] == [];
    } else {
      PrefixOfAppend(pat, s, c);
      if pat <= s {
        assert sc[|pat|..] == s[|pat|..] + [c];
        ReplaceAppendChar(s[|pat|..], pat, rep, c);
      } else {
        assert sc[1..] == s[1..] + [c];
        ReplaceAppendChar(s[1..], pat, rep, c);
      }
    }
  }

  /** Removing `c` leaves an appended `d` other than `c` in place at the end. */
  lemma {:induction false} WithoutAppend(s: string, c: char, d: char)
    requires c != d
    ensures Without(s + [d], c) == Without(s, c) + [d]
    decreases |s|
  {
    if s != [] {
      assert (s + [d])[1..] == s[1..] + [d];
      WithoutAppend(s[1..], c, d);
    } else {
      assert ([] + [d])[1..] == [];
    }
  }

  /** Every string is a subsequence of itself. */
  lemma {:induction false} SubsequenceReflexive(s: string)
    ensures IsSubsequence(s, s)
    decreases |s|
  {
    if s != [] {
      SubsequenceReflexive(s[1..]);
    }
  }

  /** A subsequence of a suffix is a subsequence of the whole string. */
  lemma {:induction false} SubsequenceOfSuffix(r: string, s: string, k: nat)
    requires k <= |s| && IsSubsequence(r, s[k..])
    ensures IsSubsequence(r, s)
    decreases k
  {
    if k > 0 {
      assert s[1..][k - 1..] == s[k..];
      SubsequenceOfSuffix(r, s[1..], k - 1);
    }
  }

  /** Deleting a pattern keeps the remaining characters in their order. */
  lemma {:induction false} DeleteIsSubsequence(s: string, pat: string)
    ensures IsSubsequence(Replace(s, pat, []), s)
    decreases |s|
  {
    if pat == [] {
      SubsequenceReflexive(s);
    } else if s == [] {
    } else if pat <= s {
      DeleteIsSubsequence(s[|pat|..], pat);
      assert Replace(s, pat, []) == Replace(s[|pat|..], pat, []);
      SubsequenceOfSuffix(Replace(s, pat, []), s, |pat|);
    } else {
      DeleteIsSubsequence(s[1..], pat);
      var r := Replace(s, pat, []);
      assert r[0] == s[0] && r[1..] == Replace(s[1..], pat, []);
    }
  }
}
