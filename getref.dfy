/**
 The reference-lookup script: `parse_ref` strips the bracketed citation
 marker from a line, `get_bibtex` turns a failed search into an empty record,
 and `main` collects one record per input line, in order.

 The scholarly-search service is not modelled: `search` stands for
 `scholarly.search_pubs` followed by `next` (None when either raises) and
 `bibtex` for `scholarly.bibtex`.
 */
module GetRef {
  import opened PyStr

  datatype Option<T> = None | Some(value: T)

  /** `i` is the index of the first `c` in `line`. */
  predicate FirstAt(line: string, c: char, i: int)
  {
    0 <= i < |line| && line[i] == c && c !in line[..i]
  }

  /** `parse_ref`: delete every occurrence of `line[start:stop+2]`, where
      `start` and `stop` are the first `[` and the first `]`; a line lacking
      either bracket is returned as it is. */
  function ParseRef(line: string): (r: string)
    ensures |r| <= |line|
    ensures '[' !in line || ']' !in line ==> r == line
  {
    var start := Find(line, '[');
    var stop := Find(line, ']');
    if start == -1 || stop == -1 then line
    else Replace(line, Slice(line, start, stop + 2), "")
  }

  /** The first index of a character is the one `find` reports. */
  lemma FindIsFirst(line: string, c: char, i: int)
    requires FirstAt(line, c, i)
    ensures Find(line, c) == i
  {
    assert line[i] in line[..i + 1];
  }

  /** With the first `[` at `i` and the first `]` at `j`, and `i <= j + 1`,
      the pattern is the non-empty window from `i` through `j + 1` (cut at the
      end of the line), and the result is the line with every non-overlapping
      occurrence of that window cut out. */
  lemma ParseRefDeletesEveryCopy(line: string, i: int, j: int)
    requires FirstAt(line, '[', i) && FirstAt(line, ']', j) && i <= j + 1
    ensures var pat := line[i..Min(j + 2, |line|)];
      pat != [] && pat[0] == '[' &&
      ParseRef(line) == Join([], Split(line, pat))
  {
    FindIsFirst(line, '[', i);
    FindIsFirst(line, ']', j);
    var pat := line[i..Min(j + 2, |line|)];
    assert Slice(line, i, j + 2) == pat;
    ReplaceIsJoinOfSplit(line, pat, []);
  }

  /** When the first `]` lies two or more places before the first `[`, the
      pattern is empty and the line comes back unchanged. */
  lemma ParseRefReversedBrackets(line: string, i: int, j: int)
    requires FirstAt(line, '[', i) && FirstAt(line, ']', j) && j + 2 <= i
    ensures ParseRef(line) == line
  {
    FindIsFirst(line, '[', i);
    FindIsFirst(line, ']', j);
    assert Slice(line, i, j + 2) == [];
  }

  /** When the first `]` sits immediately before the first `[`, the pattern
      is the single character `[`, so every `[` in the line is deleted. */
  lemma ParseRefAdjacentReversed(line: string, i: int)
    requires FirstAt(line, '[', i) && FirstAt(line, ']', i - 1)
    ensures ParseRef(line) == Without(line, '[')
  {
    FindIsFirst(line, '[', i);
    FindIsFirst(line, ']', i - 1);
    assert Slice(line, i, i + 1) == ['['];
    DeleteCharIsWithout(line, '[');
  }

  /** The line is returned unchanged exactly when a bracket is missing or the
      first `]` lies two or more places before the first `[`. */
  lemma ParseRefUnchangedIff(line: string, i: int, j: int)
    requires FirstAt(line, '[', i) && FirstAt(line, ']', j)
    ensures ParseRef(line) == line <==> j + 2 <= i
  {
    if j + 2 <= i {
      ParseRefReversedBrackets(line, i, j);
    } else {
      FindIsFirst(line, '[', i);
      FindIsFirst(line, ']', j);
      var pat := line[i..Min(j + 2, |line|)];
      assert Slice(line, i, j + 2) == pat;
      ContainsWindow(line, i, Min(j + 2, |line|));
      DeleteUnchangedIff(line, pat);
    }
  }

  /** Whatever precedes the first `[` survives, unchanged, as a prefix of the
      result: the pattern starts with `[` and so cannot occur there. */
  lemma ParseRefKeepsPrefix(line: string, i: int)
    requires FirstAt(line, '[', i)
    ensures line[..i] <= ParseRef(line)
  {
    if ']' !in line {
    } else {
      var j := Find(line, ']');
      if j + 2 <= i {
        ParseRefReversedBrackets(line, i, j);
      } else {
        FindIsFirst(line, '[', i);
        var pat := line[i..Min(j + 2, |line|)];
        assert Slice(line, i, j + 2) == pat;
        ReplaceKeepsPrefix(line, i, pat, []);
      }
    }
  }

  /** When the first `]` is the last or the second-to-last character and
      comes after the first `[`, the pattern runs to the end of the line, so
      only what precedes the `[` is left. */
  lemma ParseRefMarkerAtEnd(line: string, i: int, j: int)
    requires FirstAt(line, '[', i) && FirstAt(line, ']', j) && i < j && |line| <= j + 2
    ensures ParseRef(line) == line[..i]
  {
    FindIsFirst(line, '[', i);
    FindIsFirst(line, ']', j);
    var pat := line[i..];
    assert Slice(line, i, j + 2) == pat;
    ReplaceKeepsPrefix(line, i, pat, []);
    assert line[i..][|pat|..] == [];
  }

  /** A citation whose marker closes the line loses the newline after the
      marker as well: the character after `]` belongs to the pattern. */
  lemma ParseRefDropsNewlineAfterMarker(text: string, body: string)
    requires '[' !in text && ']' !in text && '[' !in body && ']' !in body
    ensures ParseRef(text + "[" + body + "]\n") == text
  {
    var line := text + "[" + body + "]\n";
    var i, j := |text|, |text| + |body| + 1;
    assert line[..i] == text;
    assert line[..j] == text + "[" + body;
    assert FirstAt(line, '[', i);
    assert FirstAt(line, ']', j);
    ParseRefMarkerAtEnd(line, i, j);
  }

  /** A line read from a file keeps its newline, except when the line's first
      `]` is the character just before the newline and a `[` precedes it. */
  lemma ParseRefKeepsTrailingNewline(s: string)
    requires '\n' !in s
    requires !(FirstAt(s, ']', |s| - 1) && '[' in s)
    ensures var r := ParseRef(s + "\n"); |r| > 0 && r[|r| - 1] == '\n'
  {
    var line := s + "\n";
    assert line[..|s|] == s;
    if '[' in line && ']' in line {
      var i, j := Find(line, '['), Find(line, ']');
      assert line[|s|] == '\n';
      assert i < |s| && j < |s|;
      assert line[..i] == s[..i] && line[..j] == s[..j];
      if j + 2 <= i {
        ParseRefReversedBrackets(line, i, j);
      } else if j + 1 == i {
        ParseRefAdjacentReversed(line, i);
        WithoutAppend(s, '[', '\n');
      } else {
        assert s[i] == '[';
        assert j != |s| - 1;
        var pat := line[i..j + 2];
        assert Slice(line, i, j + 2) == pat;
        assert pat == s[i..j + 2];
        assert pat[0] == '[';
        ReplaceAppendChar(s, pat, [], '\n');
      }
    }
  }

  /** The result keeps the characters it does not delete in their order. */
  lemma ParseRefIsSubsequence(line: string)
    ensures IsSubsequence(ParseRef(line), line)
  {
    var start := Find(line, '[');
    var stop := Find(line, ']');
    if start == -1 || stop == -1 {
      SubsequenceReflexive(line);
    } else {
      DeleteIsSubsequence(line, Slice(line, start, stop + 2));
    }
  }

  /** A line opening with the marker `[body]c`, with no bracket inside `body`,
      loses every copy of that marker, wherever it recurs in the rest. */
  lemma ParseRefLeadingMarker(body: string, c: char, rest: string)
    requires '[' !in body && ']' !in body
    ensures ParseRef("[" + body + "]" + [c] + rest) == Replace(rest, "[" + body + "]" + [c], [])
  {
    var marker := "[" + body + "]" + [c];
    var line := marker + rest;
    var j := |body| + 1;
    assert line[..0] == [];
    assert line[..j] == "[" + body;
    assert FirstAt(line, '[', 0);
    assert FirstAt(line, ']', j);
    ParseRefDeletesEveryCopy(line, 0, j);
    assert line[0..Min(j + 2, |line|)] == marker;
    ReplaceIsJoinOfSplit(line, marker, []);
    assert marker <= line;
    assert line[|marker|..] == rest;
  }

  /** When the rest of such a line holds no `[`, exactly the rest is left:
      the marker and the one character after its `]` are gone. */
  lemma ParseRefStripsLeadingMarker(body: string, c: char, rest: string)
    requires '[' !in body && ']' !in body && '[' !in rest
    ensures ParseRef("[" + body + "]" + [c] + rest) == rest
  {
    ParseRefLeadingMarker(body, c, rest);
    NotContainsWithoutHead(rest, "[" + body + "]" + [c]);
    ReplaceWithoutOccurrence(rest, "[" + body + "]" + [c], []);
  }

  /** The line `[1] Deep Learning, Goodfellow et al.` becomes its citation text. */
  lemma ParseRefExample(line: string, title: string)
    requires title == "Deep Learning, Goodfellow et al."
    requires line == "[1] " + title
    ensures ParseRef(line) == title
  {
    var body := "1";
    assert '[' !in title;
    assert "[" + body + "]" + [' '] + title == line;
    ParseRefStripsLeadingMarker(body, ' ', title);
  }

  /** A line read from a file keeps its trailing newline. */
  lemma ParseRefKeepsNewline(line: string, title: string)
    requires title == "Attention Is All You Need\n"
    requires line == "[7] " + title
    ensures ParseRef(line) == title
  {
    var body := "7";
    assert '[' !in title;
    assert "[" + body + "]" + [' '] + title == line;
    ParseRefStripsLeadingMarker(body, ' ', title);
  }

  /** A marker repeated at the end of the line is deleted there too, so the
      result is not simply the line minus its leading marker. */
  lemma ParseRefRepeatedMarker(body: string, c: char, title: string)
    requires '[' !in body && ']' !in body && '[' !in title
    ensures var marker := "[" + body + "]" + [c];
      ParseRef(marker + title + marker) == title
  {
    var marker := "[" + body + "]" + [c];
    var rest := title + marker;
    assert marker + rest == marker + title + marker;
    ParseRefLeadingMarker(body, c, rest);
    assert rest[..|title|] == title;
    assert rest[|title|..] == marker;
    ReplaceKeepsPrefix(rest, |title|, marker, []);
    assert marker <= marker;
    assert marker[|marker|..] == [];
    assert Replace(marker, marker, []) == [];
  }

  /** `get_bibtex`: the first search result rendered by `bibtex`, or the
      empty string when the search fails or finds nothing. */
  function GetBibtex<P>(search: string -> Option<P>, bibtex: P -> string, query: string): (r: string)
    ensures search(query).None? ==> r == ""
    ensures search(query).Some? ==> r == bibtex(search(query).value)
  {
    match search(query)
    case None => ""
    case Some(pub) => bibtex(pub)
  }

  /** The loop of `main`: one record per line, in the order of the lines, each
      the lookup of the normalised line; failed lookups give `""`. The service
      is asked once per line, and `search(k)` is how it answers the `k`-th call,
      so equal queries on different lines may get different answers. */
  method CollectBibtexs<P>(lines: seq<string>, search: nat -> string -> Option<P>, bibtex: P -> string)
    returns (bibtexs: seq<string>)
    ensures |bibtexs| == |lines|
    ensures forall k :: 0 <= k < |lines| ==> bibtexs[k] == GetBibtex(search(k), bibtex, ParseRef(lines[k]))
    ensures forall k :: 0 <= k < |lines| && search(k)(ParseRef(lines[k])).None? ==> bibtexs[k] == ""
  {
    bibtexs := [];
    for i := 0 to |lines|
      invariant |bibtexs| == i
      invariant forall k :: 0 <= k < i ==> bibtexs[k] == GetBibtex(search(k), bibtex, ParseRef(lines[k]))
    {
      var ref := ParseRef(lines[i]);
      bibtexs := bibtexs + [GetBibtex(search(i), bibtex, ref)];
    }
  }
}
