# Reference lookup script, modelled in Dafny

`scripts/refs/getref.py` reads citation lines from `refs.txt`. For each line it
strips the bracketed citation marker (`[12] `), searches a scholarly-literature
service for the rest, and collects the first hit's BibTeX record, or an empty
string when the search fails. At the end it prints the records.

The model has two modules:

- `PyStr` (`py_str.dfy`) holds the Python string operations that `parse_ref` is
  built from. These are `str.find` for one character, slicing with clamped
  bounds, and `str.replace`. `str.replace` deletes every non-overlapping
  occurrence scanned left to right, and with an empty pattern it inserts the
  replacement before every character and once more at the end. As an
  independent reference it also has `str.split`, `str.join` and the `in`
  test. Lemmas connect `replace` to them: `s.replace(p, r) == r.join(s.split(p))`, `p.join(s.split(p)) == s`,
  no piece of a split contains `p`, the split cuts at the leftmost occurrence
  and then continues after it, and deletion is a no-op exactly when `p` does
  not occur.
- `GetRef` (`getref.dfy`) holds `parse_ref` as a function, `get_bibtex` as a
  function over an abstract search, and `main`'s accumulation loop as a method
  with loop invariants.

What `parse_ref` actually does, as proved here:

- A line without `[` or without `]` comes back unchanged.
- Otherwise let `i` be the first `[` and `j` the first `]`. The pattern is
  `line[i:j+2]`, cut at the end of the line. The result is the line with every
  copy of that pattern deleted, not only the copy at the marker.
- If `j + 2 <= i`, the pattern is empty and the line comes back unchanged.
  A missing bracket and `j + 2 <= i` are the only cases in which the line
  comes back unchanged. If `j + 1 == i`, the pattern is `[` and every `[` in
  the line is deleted, so the line always changes.
- Whatever precedes the first `[` always survives as a prefix of the result.
  The result is always a subsequence of the line.
- A line read from the file, with its one newline at the end, keeps that
  newline unless a `[` precedes a first `]` that is the character just before
  the newline. In that case the newline is the character after `]`, belongs
  to the pattern and is deleted, so `text [1]\n` becomes `text `. A line
  with no `[`, or with its first `]` elsewhere, keeps its newline.
- When the first `]` is the last or the second-to-last character and follows
  the first `[`, everything from that `[` onward is removed.

Where the code differs from what a reader would expect of a marker-stripper,
the model follows the code:

- Only `scholarly.search_pubs` and `next` are inside the `try`
  (`getref.py:6-9`). `scholarly.bibtex` (`getref.py:12`) is outside it, so a
  failure there is not turned into `''`. The model's `search` yields `None`
  for a caught failure, and `bibtex` is a total function.
- A line `[n] rest` does not always become `rest` with its marker removed.
  Every later copy of `[n] ` in `rest` is deleted too
  (`GetRef.ParseRefRepeatedMarker`).
- With `]` before `[`, the line is unchanged only when at least one character
  separates them. With `][` adjacent, every `[` is removed.

## Model

| member | source | states |
|---|---|---|
| `PyStr.Find` | scripts/refs/getref.py:15-16 | `find` gives -1 exactly when the character is absent; otherwise it gives an index holding the character with no earlier copy |
| `PyStr.Slice` | scripts/refs/getref.py:20 | `s[lo:hi]` is the window of `s` starting at `lo`, with both bounds clamped to the length; it is empty when the clamped `hi` does not exceed `lo` |
| `PyStr.Interleave` | scripts/refs/getref.py:20 | replacing the empty pattern with `''` returns the string unchanged; in general the result is longer by one copy of the replacement per gap (`len(s) + 1` copies) |
| `PyStr.InterleaveIsJoin` | scripts/refs/getref.py:20 | for a non-empty string, `s.replace('', r) == r + r.join(list(s)) + r`: the replacement stands before every character, between neighbours and at the end |
| `PyStr.Replace` | scripts/refs/getref.py:20 | replacing a non-empty pattern by something no longer never lengthens the string |
| `PyStr.ReplaceIsJoinOfSplit` | scripts/refs/getref.py:20 | `s.replace(p, r)` equals `r.join(s.split(p))`: each left-to-right non-overlapping occurrence is replaced |
| `PyStr.SplitJoin` | scripts/refs/getref.py:20 | `p.join(s.split(p)) == s`: the pieces and the occurrences together make up the whole string |
| `PyStr.SplitPiecesAreFree` | scripts/refs/getref.py:20 | no piece left between occurrences contains the pattern, so no occurrence is skipped |
| `PyStr.SplitFirstOccurrence` | scripts/refs/getref.py:20 | the scan is left to right: the first cut is at the leftmost occurrence (none starts earlier), and the remaining pieces are the split of what follows that occurrence |
| `PyStr.ReplaceWithoutOccurrence` | scripts/refs/getref.py:20 | a string in which the pattern does not occur is returned unchanged |
| `PyStr.DeleteUnchangedIff` | scripts/refs/getref.py:20 | deleting a non-empty pattern leaves the string unchanged if and only if the pattern does not occur |
| `PyStr.ReplaceKeepsPrefix` | scripts/refs/getref.py:20 | a leading stretch without the pattern's first character is kept unchanged in front |
| `PyStr.ReplaceAppendChar` | scripts/refs/getref.py:20 | a character the pattern does not contain, appended to the string, is appended to the result and takes part in no occurrence |
| `PyStr.DeleteCharIsWithout` | scripts/refs/getref.py:20 | deleting a one-character pattern removes every copy of that character |
| `PyStr.DeleteIsSubsequence` | scripts/refs/getref.py:20 | deletion keeps the other characters in their original order |
| `GetRef.ParseRef` | scripts/refs/getref.py:14-20 | the result is never longer than the line; a line lacking `[` or `]` is returned unchanged |
| `GetRef.FindIsFirst` | scripts/refs/getref.py:15-16 | the `start` and `stop` that `parse_ref` computes are the first `[` and the first `]` |
| `GetRef.ParseRefDeletesEveryCopy` | scripts/refs/getref.py:15-20 | when the first `[` is at most one place after the first `]`, the pattern is the non-empty window from `[` through the character after `]`, clamped, and every occurrence of it is deleted |
| `GetRef.ParseRefReversedBrackets` | scripts/refs/getref.py:15-20 | when the first `]` lies two or more places before the first `[`, the line is returned unchanged |
| `GetRef.ParseRefAdjacentReversed` | scripts/refs/getref.py:15-20 | when `]` immediately precedes the first `[`, every `[` is deleted |
| `GetRef.ParseRefUnchangedIff` | scripts/refs/getref.py:15-20 | with both brackets present, the line is unchanged if and only if the first `]` is two or more places before the first `[` |
| `PyStr.ContainsWindow` | scripts/refs/getref.py:20 | the slice that `parse_ref` builds always occurs in the line |
| `GetRef.ParseRefKeepsPrefix` | scripts/refs/getref.py:15-20 | the characters before the first `[` survive unchanged as a prefix of the result |
| `GetRef.ParseRefMarkerAtEnd` | scripts/refs/getref.py:15-20 | when the first `]` follows the first `[` and is the last or second-to-last character, the deletion runs to the end, leaving only what precedes `[` |
| `GetRef.ParseRefDropsNewlineAfterMarker` | scripts/refs/getref.py:15-20 | a bracket-free text followed by `[body]` and a newline becomes the text alone: the newline after `]` is deleted with the marker |
| `GetRef.ParseRefKeepsTrailingNewline` | scripts/refs/getref.py:15-20 | a line with a single newline at its end still ends with a newline after `parse_ref`, unless its first `]` is just before the newline and a `[` precedes it |
| `GetRef.ParseRefIsSubsequence` | scripts/refs/getref.py:14-20 | the result is the line with some characters deleted, the rest in order |
| `GetRef.ParseRefLeadingMarker` | scripts/refs/getref.py:14-20 | a line opening with `[body]c` becomes the rest with every copy of that marker deleted |
| `GetRef.ParseRefStripsLeadingMarker` | scripts/refs/getref.py:14-20 | if the rest contains no `[`, exactly the rest is left |
| `GetRef.ParseRefRepeatedMarker` | scripts/refs/getref.py:20 | a marker repeated at the end of the line is deleted there as well |
| `GetRef.ParseRefExample` | scripts/refs/getref.py:14-20 | `[1] Deep Learning, Goodfellow et al.` becomes `Deep Learning, Goodfellow et al.` |
| `GetRef.ParseRefKeepsNewline` | scripts/refs/getref.py:14-20 | for the line `[7] Attention Is All You Need` plus a newline, the newline is not stripped |
| `GetRef.GetBibtex` | scripts/refs/getref.py:4-12 | a failed search yields `''`; a successful one yields the first hit's record |
| `GetRef.CollectBibtexs` | scripts/refs/getref.py:29-36 | one record per line, in line order, the `k`-th being the `k`-th call's lookup of the normalised `k`-th line, with `''` for every failed lookup |

## Left out

- The scholarly-search service (`getref.py:7-8,12`) is a network service. It is a pair of parameters. `search` returns `None` for any failure, or the first hit. `bibtex` renders a hit.
- `GetRef.CollectBibtexs`: the service's answers are a parameter indexed by call number (`search(k)` answers the call for line `k`), so equal queries on different lines are not assumed to get equal answers. What the service answers, and how that depends on time or the proxy in use, is not modelled. `bibtex` is modelled as deterministic in the hit it renders.
- The `except:` at `getref.py:9` catches every exception type the same way, so there is a single failure case.
- `GetRef.GetBibtex`: an exception raised by `scholarly.bibtex` (`getref.py:12`, outside the `try`) would end the script. This is not modelled, because `bibtex` is total.
- Proxy setup (`getref.py:23-25`) is network configuration with no behaviour to state.
- Opening and reading `refs.txt` (`getref.py:29,31`) is I/O. The lines arrive as a sequence of strings, each keeping its newline as Python's file iteration does. Splitting the file text into lines is not modelled.
- The progress bar (`getref.py:32,35`) and every `print` (`getref.py:5,10,27,38-39`) are terminal output.
- `PyStr.Find` covers only a one-character argument, which is the only kind `parse_ref` passes.
- `PyStr.Slice` covers only non-negative bounds, which are the only ones `parse_ref` produces.
