/** The Python string operations the driver relies on: `str.split(sep)`,
    `sep.join(parts)`, `str.rstrip()` and `re.split(r" +", s)`. */
module Text {

  /** Python's `str.isspace()` on one character: what `str.rstrip()` removes. */
  predicate IsSpace(c: char) {
    ('\t' <= c <= '\r') || ('\U{1C}' <= c <= ' ') || c == '\U{85}' || c == '\U{A0}'
    || c == '\U{1680}' || ('\U{2000}' <= c <= '\U{200A}') || c == '\U{2028}' || c == '\U{2029}'
    || c == '\U{202F}' || c == '\U{205F}' || c == '\U{3000}'
  }

  /** Python's `s.rstrip()`: the longest prefix of `s` that does not end in whitespace. */
  function RStrip(s: string): (r: string)
    ensures |r| <= |s| && r == s[..|r|]
    ensures r == "" || !IsSpace(r[|r| - 1])
    ensures forall i :: |r| <= i < |s| ==> IsSpace(s[i])
  {
    if s != "" && IsSpace(s[|s| - 1]) then RStrip(s[..|s| - 1]) else s
  }

  /** Number of occurrences of `c` in `s`. */
  function Count(s: string, c: char): nat {
    if s == "" then 0 else (if s[0] == c then 1 else 0) + Count(s[1..], c)
  }

  /** Python's `s.split(sep)` with an explicit, non-empty separator: the pieces
      between the leftmost non-overlapping occurrences of `sep`. */
  function Split(s: string, sep: string): (r: seq<string>)
    requires sep != ""
    ensures |r| >= 1
    decreases |s|
  {
    if s == "" then [""]
    else if sep <= s then [""] + Split(s[|sep|..], sep)
    else
      var rest := Split(s[1..], sep);
      [[s[0]] + rest[0]] + rest[1..]
  }

  /** With a one-character separator there is one piece more than there are
      separators, and no piece contains the separator. */
  lemma {:induction false} SplitOneChar(s: string, c: char)
    ensures |Split(s, [c])| == Count(s, c) + 1
    ensures forall p :: p in Split(s, [c]) ==> c !in p
    decreases |s|
  {
    if s != "" {
      SplitOneChar(s[1..], c);
      if [c] <= s {
        assert s[|[c]|..] == s[1..];
      }
    }
  }

  /** `sep` occurs somewhere in `p`. */
  predicate Occurs(sep: string, p: string) {
    exists k :: 0 <= k <= |p| && sep <= p[k..]
  }

  /** No piece of a split contains the separator, and the first piece is a
      prefix of the text. */
  lemma {:induction false} SplitPiecesLackSep(s: string, sep: string)
    requires sep != ""
    ensures Split(s, sep)[0] <= s
    ensures forall p :: p in Split(s, sep) ==> !Occurs(sep, p)
    decreases |s|
  {
    if s == "" {
      assert !Occurs(sep, "") by {
        forall k | 0 <= k <= 0 ensures !(sep <= ""[k..]) { }
      }
    } else if sep <= s {
      SplitPiecesLackSep(s[|sep|..], sep);
      assert !Occurs(sep, "") by {
        forall k | 0 <= k <= 0 ensures !(sep <= ""[k..]) { }
      }
    } else {
      var r := Split(s[1..], sep);
      SplitPiecesLackSep(s[1..], sep);
      var first := [s[0]] + r[0];
      assert first <= s;
      assert !Occurs(sep, first) by {
        forall k | 0 <= k <= |first|
          ensures !(sep <= first[k..])
        {
          if k == 0 {
            assert first[0..] == first;
          } else {
            assert first[k..] == r[0][k - 1..];
            assert r[0] in r;
          }
        }
      }
      assert forall p :: p in r[1..] ==> p in r;
    }
  }

  /** Python's `sep.join(parts)`. */
  function Join(parts: seq<string>, sep: string): string {
    if parts == [] then ""
    else if |parts| == 1 then parts[0]
    else parts[0] + sep + Join(parts[1..], sep)
  }

  lemma JoinCons(c: char, parts: seq<string>, sep: string)
    requires |parts| >= 1
    ensures Join([[c] + parts[0]] + parts[1..], sep) == [c] + Join(parts, sep)
  {
    var q := [[c] + parts[0]] + parts[1..];
    assert q[1..] == parts[1..];
  }

  lemma JoinEmptyFirst(parts: seq<string>, sep: string)
    requires |parts| >= 1
    ensures Join([""] + parts, sep) == sep + Join(parts, sep)
  {
    assert ([""] + parts)[1..] == parts;
  }

  /** Joining the pieces of a split with the same separator gives back the text. */
  lemma {:induction false} JoinSplit(s: string, sep: string)
    requires sep != ""
    ensures Join(Split(s, sep), sep) == s
    decreases |s|
  {
    if s == "" {
    } else if sep <= s {
      JoinSplit(s[|sep|..], sep);
      JoinEmptyFirst(Split(s[|sep|..], sep), sep);
      assert s == sep + s[|sep|..];
    } else {
      JoinSplit(s[1..], sep);
      JoinCons(s[0], Split(s[1..], sep), sep);
      assert s == [s[0]] + s[1..];
    }
  }

  lemma {:induction false} SplitAfterPiece(p: string, t: string, c: char)
    requires c !in p
    ensures Split(p + t, [c]) == [p + Split(t, [c])[0]] + Split(t, [c])[1..]
  {
    if p == "" {
      var q := Split(t, [c]);
      assert p + t == t && p + q[0] == q[0];
      assert q == [q[0]] + q[1..];
    } else {
      SplitAfterPiece(p[1..], t, c);
      assert (p + t)[1..] == p[1..] + t;
      assert p[0] in p && (p + t)[0] == p[0];
      assert !([c] <= p + t);
      var r, q := Split(p[1..] + t, [c]), Split(t, [c]);
      assert Split(p + t, [c]) == [[p[0]] + r[0]] + r[1..];
      assert r == [p[1..] + q[0]] + q[1..];
      assert r[0] == p[1..] + q[0] && r[1..] == q[1..];
      assert [p[0]] + (p[1..] + q[0]) == p + q[0];
    }
  }

  /** Splitting the join of separator-free pieces with a one-character separator
      gives back the pieces. */
  lemma {:induction false} SplitJoin(parts: seq<string>, c: char)
    requires |parts| >= 1
    requires forall p :: p in parts ==> c !in p
    ensures Split(Join(parts, [c]), [c]) == parts
  {
    if |parts| == 1 {
      SplitAfterPiece(parts[0], "", c);
      assert parts[0] + "" == parts[0];
    } else {
      var u := Join(parts[1..], [c]);
      SplitJoin(parts[1..], c);
      SplitAfterPiece(parts[0], [c] + u, c);
      assert parts[0] + [c] + u == parts[0] + ([c] + u);
      assert ([c] + u)[|[c]|..] == u;
      var w := Split([c] + u, [c]);
      assert w == [""] + Split(u, [c]);
      assert w[0] == "" && w[1..] == parts[1..];
      assert Join(parts, [c]) == parts[0] + ([c] + u);
      assert parts[0] + "" == parts[0];
      assert parts == [parts[0]] + parts[1..];
    }
  }

  /** `s` without its leading run of spaces. */
  function SkipSpaces(s: string): (r: string)
    ensures |r| <= |s| && r == s[|s| - |r|..]
    ensures r == "" || r[0] != ' '
    ensures forall i :: 0 <= i < |s| - |r| ==> s[i] == ' '
  {
    if s != "" && s[0] == ' ' then SkipSpaces(s[1..]) else s
  }

  /** `s` with every space removed. */
  function RemoveSpaces(s: string): string {
    if s == "" then "" else (if s[0] == ' ' then "" else [s[0]]) + RemoveSpaces(s[1..])
  }

  lemma {:induction false} RemoveSpacesSkip(s: string)
    ensures RemoveSpaces(SkipSpaces(s)) == RemoveSpaces(s)
  {
    if s != "" && s[0] == ' ' {
      RemoveSpacesSkip(s[1..]);
    }
  }

  /** The concatenation of `parts`. */
  function Concat(parts: seq<string>): string {
    if parts == [] then "" else parts[0] + Concat(parts[1..])
  }

  /** Python's `re.split(r" +", s)`: the pieces between maximal runs of spaces.
      No piece holds a space; only the first piece (when `s` starts with a
      space) and the last (when it ends with one) can be empty. */
  function SplitSpaces(s: string): (r: seq<string>)
    ensures |r| >= 1
    ensures forall p :: p in r ==> ' ' !in p
    ensures r[0] == "" <==> s == "" || s[0] == ' '
    ensures forall j :: 0 < j < |r| - 1 ==> r[j] != ""
    ensures s != "" && s[|s| - 1] != ' ' ==> r[|r| - 1] != ""
    decreases |s|
  {
    if s == "" then [""]
    else if s[0] == ' ' then
      var rest := SplitSpaces(SkipSpaces(s));
      assert ([""] + rest)[1..] == rest;
      [""] + rest
    else
      var rest := SplitSpaces(s[1..]);
      [[s[0]] + rest[0]] + rest[1..]
  }

  /** `s` with every run of spaces shortened to a single space. */
  function Squeeze(s: string): string
    decreases |s|
  {
    if s == "" then ""
    else if s[0] == ' ' then " " + Squeeze(SkipSpaces(s))
    else [s[0]] + Squeeze(s[1..])
  }

  /** The leading characters of `s` up to its first space. */
  function Word(s: string): string {
    if s == "" || s[0] == ' ' then "" else [s[0]] + Word(s[1..])
  }

  /** The first piece of `re.split(r" +", s)` is the text before the first space. */
  lemma {:induction false} SplitSpacesFirst(s: string)
    ensures SplitSpaces(s)[0] == Word(s)
    decreases |s|
  {
    if s != "" && s[0] != ' ' {
      SplitSpacesFirst(s[1..]);
    }
  }

  /** Joining the pieces of `re.split(r" +", s)` with one space gives `s` with
      each run of spaces squeezed to one space; since no piece holds a space,
      this fixes where the text is cut. */
  lemma {:induction false} SplitSpacesJoin(s: string)
    ensures Join(SplitSpaces(s), " ") == Squeeze(s)
    decreases |s|
  {
    if s == "" {
    } else if s[0] == ' ' {
      SplitSpacesJoin(SkipSpaces(s));
      JoinEmptyFirst(SplitSpaces(SkipSpaces(s)), " ");
    } else {
      SplitSpacesJoin(s[1..]);
      JoinCons(s[0], SplitSpaces(s[1..]), " ");
    }
  }

  /** `re.split(r" +", s)` is `str.split(" ")` of the text with its runs of
      spaces squeezed: the pieces are exactly those. */
  lemma SplitSpacesIsSplitOfSqueeze(s: string)
    ensures SplitSpaces(s) == Split(Squeeze(s), " ")
  {
    SplitSpacesJoin(s);
    SplitJoin(SplitSpaces(s), ' ');
  }

  lemma ConcatEmptyFirst(parts: seq<string>)
    ensures Concat([""] + parts) == Concat(parts)
  {
    assert ([""] + parts)[1..] == parts;
  }

  lemma ConcatCons(c: char, parts: seq<string>)
    requires |parts| >= 1
    ensures Concat([[c] + parts[0]] + parts[1..]) == [c] + Concat(parts)
  {
    var q := [[c] + parts[0]] + parts[1..];
    assert q[1..] == parts[1..];
    assert Concat(parts) == parts[0] + Concat(parts[1..]);
    assert ([c] + parts[0]) + Concat(parts[1..]) == [c] + (parts[0] + Concat(parts[1..]));
  }

  /** Taken together, the pieces of `SplitSpaces` hold every character of the
      text that is not a space, in order. */
  lemma {:induction false} SplitSpacesKeepsText(s: string)
    ensures Concat(SplitSpaces(s)) == RemoveSpaces(s)
    decreases |s|
  {
    if s == "" {
    } else if s[0] == ' ' {
      RemoveSpacesSkip(s);
      SplitSpacesKeepsText(SkipSpaces(s));
      ConcatEmptyFirst(SplitSpaces(SkipSpaces(s)));
    } else {
      SplitSpacesKeepsText(s[1..]);
      ConcatCons(s[0], SplitSpaces(s[1..]));
    }
  }
}
