/**
 * The parts of Python's `str` that the downloader relies on: `isspace`, `strip`,
 * `find`, `startswith`, `split(sep)`, `split()` and `count`.
 */
module Strings {

  /** The characters for which Python's `str.isspace` holds: the Unicode White_Space
      characters plus the four ASCII separators U+001C..U+001F. */
  const WhiteSpace: set<char> := {
    ' ', '\t', '\n', '\U{000B}', '\U{000C}', '\r', '\U{001C}', '\U{001D}', '\U{001E}', '\U{001F}',
    '\U{0085}', '\U{00A0}', '\U{1680}', '\U{2000}', '\U{2001}', '\U{2002}', '\U{2003}', '\U{2004}',
    '\U{2005}', '\U{2006}', '\U{2007}', '\U{2008}', '\U{2009}', '\U{200A}', '\U{2028}', '\U{2029}',
    '\U{202F}', '\U{205F}', '\U{3000}'
  }

  predicate IsSpace(c: char) {
    c in WhiteSpace
  }

  // ---------------------------------------------------------------- strip

  /** The first index at or after `i` whose character is not in `chars` (or `|s|`). */
  function SkipFrom(s: string, i: nat, chars: set<char>): (b: nat)
    requires i <= |s|
    ensures i <= b <= |s|
    ensures forall k :: i <= k < b ==> s[k] in chars
    ensures b < |s| ==> s[b] !in chars
    decreases |s| - i
  {
    if i == |s| || s[i] !in chars then i else SkipFrom(s, i + 1, chars)
  }

  /** Drop the longest prefix made of `chars`. */
  function TrimLeft(s: string, chars: set<char>): (r: string)
    ensures |r| <= |s| && r == s[|s| - |r|..]
    ensures r == [] || r[0] !in chars
    ensures forall i :: 0 <= i < |s| - |r| ==> s[i] in chars
  {
    s[SkipFrom(s, 0, chars)..]
  }

  /** Python's `s.strip()`: drop leading and trailing whitespace, one character at a time. */
  function Strip(s: string): string
    decreases |s|
  {
    if s != [] && IsSpace(s[0]) then Strip(s[1..])
    else if s != [] && IsSpace(s[|s| - 1]) then Strip(s[..|s| - 1])
    else s
  }

  /** `r` is the slice of `s` starting at `i`, and everything around it is whitespace. */
  ghost predicate Surrounded(s: string, r: string, i: int) {
    && 0 <= i <= |s| - |r| && r == s[i..i + |r|]
    && (forall k :: 0 <= k < i ==> IsSpace(s[k]))
    && (forall k :: i + |r| <= k < |s| ==> IsSpace(s[k]))
  }

  /** The stripped string is the part of `s` between leading and trailing whitespace,
      and it neither starts nor ends with whitespace. */
  lemma {:induction false} StripSpec(s: string)
    ensures exists i :: Surrounded(s, Strip(s), i)
    ensures var r := Strip(s); r == [] || (!IsSpace(r[0]) && !IsSpace(r[|r| - 1]))
    decreases |s|
  {
    var r := Strip(s);
    if s != [] && IsSpace(s[0]) {
      var t := s[1..];
      StripSpec(t);
      var i :| Surrounded(t, r, i);
      assert r == s[i + 1..i + 1 + |r|] by {
        forall k | 0 <= k < |r| ensures r[k] == s[i + 1 + k] { assert r[k] == t[i + k]; }
      }
      forall k | 0 <= k < i + 1 ensures IsSpace(s[k]) {
        if k > 0 { assert s[k] == t[k - 1]; }
      }
      forall k | i + 1 + |r| <= k < |s| ensures IsSpace(s[k]) {
        assert s[k] == t[k - 1];
      }
      assert Surrounded(s, r, i + 1);
    } else if s != [] && IsSpace(s[|s| - 1]) {
      var t := s[..|s| - 1];
      StripSpec(t);
      var i :| Surrounded(t, r, i);
      assert r == s[i..i + |r|] by {
        forall k | 0 <= k < |r| ensures r[k] == s[i + k] { assert r[k] == t[i + k]; }
      }
      assert |t| > 0 && t[0] == s[0];
      assert i == 0;
      forall k | i + |r| <= k < |s| ensures IsSpace(s[k]) {
        if k < |s| - 1 { assert s[k] == t[k]; }
      }
      assert Surrounded(s, r, i);
    } else {
      assert Surrounded(s, s, 0);
    }
  }

  /** A string with no surrounding whitespace is its own strip. */
  lemma StripUnchanged(s: string)
    requires s == [] || (!IsSpace(s[0]) && !IsSpace(s[|s| - 1]))
    ensures Strip(s) == s
  {
  }

  /** Stripping is idempotent. */
  lemma StripIdempotent(s: string)
    ensures Strip(Strip(s)) == Strip(s)
  {
    StripSpec(s);
    StripUnchanged(Strip(s));
  }

  // ---------------------------------------------------------------- find

  /** `p` occurs in `s` starting at index `i`. */
  predicate OccursAt(s: string, p: string, i: int) {
    0 <= i && i + |p| <= |s| && s[i..i + |p|] == p
  }

  /** Python's `s.find(p)`: the lowest index where `p` occurs, or -1. */
  function Find(s: string, p: string): (r: int)
    ensures r == -1 || OccursAt(s, p, r)
    ensures forall j :: 0 <= j && (r == -1 || j < r) ==> !OccursAt(s, p, j)
    decreases |s|
  {
    if |s| < |p| then -1
    else if s[..|p|] == p then 0
    else
      var k := Find(s[1..], p);
      assert forall j :: 1 <= j ==> (OccursAt(s, p, j) <==> OccursAt(s[1..], p, j - 1)) by {
        forall j | 1 <= j ensures OccursAt(s, p, j) <==> OccursAt(s[1..], p, j - 1) {
          OccursInTail(s, p, j);
        }
      }
      if k == -1 then -1 else k + 1
  }

  /** An occurrence at `j >= 1` is an occurrence at `j - 1` in the tail. */
  lemma OccursInTail(s: string, p: string, j: int)
    requires s != [] && 1 <= j
    ensures OccursAt(s, p, j) <==> OccursAt(s[1..], p, j - 1)
  {
    if j + |p| <= |s| {
      var a, b := s[j..j + |p|], s[1..][j - 1..j - 1 + |p|];
      forall k | 0 <= k < |a| ensures a[k] == b[k] {
        assert a[k] == s[j + k];
      }
      assert a == b;
    }
  }

  /** `s.find(p) != -1`, the containment test the parsers use. */
  predicate Contains(s: string, p: string) {
    Find(s, p) != -1
  }

  lemma ContainsIff(s: string, p: string)
    ensures Contains(s, p) <==> exists i :: OccursAt(s, p, i)
  {
  }

  /** Python's `s.startswith(p)`. */
  predicate StartsWith(s: string, p: string) {
    |p| <= |s| && s[..|p|] == p
  }

  // ---------------------------------------------------------------- split(sep)

  /** Python's `s.split(sep)` for a one-character separator: never empty, and the
      pieces between separators keep empty strings. */
  function Split(s: string, sep: char): (parts: seq<string>)
    ensures |parts| >= 1
    ensures forall i :: 0 <= i < |parts| ==> sep !in parts[i]
    decreases |s|
  {
    if s == [] then [[]]
    else
      var rest := Split(s[1..], sep);
      if s[0] == sep then [[]] + rest
      else [[s[0]] + rest[0]] + rest[1..]
  }

  /** `sep.join(parts)`, the inverse of `Split`. */
  function Join(parts: seq<string>, sep: char): string
    requires |parts| >= 1
  {
    if |parts| == 1 then parts[0] else parts[0] + [sep] + Join(parts[1..], sep)
  }

  lemma {:induction false} SplitJoin(s: string, sep: char)
    ensures Join(Split(s, sep), sep) == s
    decreases |s|
  {
    if s != [] {
      var rest := Split(s[1..], sep);
      SplitJoin(s[1..], sep);
      if s[0] != sep {
        if |rest| == 1 {
          assert Split(s, sep) == [[s[0]] + rest[0]];
        } else {
          assert Split(s, sep)[1..] == rest[1..];
          assert Join(Split(s, sep), sep) == [s[0]] + rest[0] + [sep] + Join(rest[1..], sep);
        }
      } else {
        assert Split(s, sep)[1..] == rest;
      }
    }
  }

  /** `s.split(sep)[-1]`. */
  function LastPiece(s: string, sep: char): string {
    var parts := Split(s, sep);
    parts[|parts| - 1]
  }

  /** The last piece is exactly the text after the last separator: a suffix of `s`
      without `sep`, preceded by `sep` unless it is all of `s`. */
  lemma {:induction false} LastPieceIsSuffix(s: string, sep: char)
    ensures var r := LastPiece(s, sep);
            |r| <= |s| && r == s[|s| - |r|..] && sep !in r
            && (|r| < |s| ==> s[|s| - |r| - 1] == sep)
    ensures |Split(s, sep)| == 1 ==> LastPiece(s, sep) == s
    ensures |Split(s, sep)| > 1 ==> |LastPiece(s, sep)| < |s|
    decreases |s|
  {
    if s != [] {
      var t := s[1..];
      LastPieceIsSuffix(t, sep);
      var rest := Split(t, sep);
      var r := LastPiece(s, sep);
      if s[0] != sep && |rest| == 1 {
        assert Split(s, sep) == [[s[0]] + rest[0]];
        assert r == [s[0]] + t;
        assert s == [s[0]] + t;
      } else {
        assert |Split(s, sep)| > 1;
        LastPieceOfTail(s, sep);
        assert r == LastPiece(t, sep);
        SuffixOfTail(s, r);
      }
    }
  }

  /** The last piece is the only suffix without `sep` that is preceded by `sep`. */
  lemma LastPieceIs(s: string, sep: char, r: string)
    requires |r| < |s| && r == s[|s| - |r|..] && sep !in r && s[|s| - |r| - 1] == sep
    ensures LastPiece(s, sep) == r
  {
    LastPieceIsSuffix(s, sep);
  }

  lemma LastPieceOfTail(s: string, sep: char)
    requires s != []
    requires s[0] == sep || |Split(s[1..], sep)| > 1
    ensures LastPiece(s, sep) == LastPiece(s[1..], sep)
  {
    var rest := Split(s[1..], sep);
    if s[0] == sep {
      assert Split(s, sep) == [[]] + rest;
    } else {
      assert Split(s, sep) == [[s[0]] + rest[0]] + rest[1..];
    }
  }

  lemma SuffixOfTail(s: string, r: string)
    requires s != [] && |r| <= |s| - 1 && r == s[1..][|s| - 1 - |r|..]
    ensures r == s[|s| - |r|..]
    ensures |r| < |s| - 1 ==> s[1..][|s| - 1 - |r| - 1] == s[|s| - |r| - 1]
  {
  }

  /** With no separator present the last piece is the whole string. */
  lemma LastPieceWithoutSep(s: string, sep: char)
    requires sep !in s
    ensures LastPiece(s, sep) == s
  {
    LastPieceIsSuffix(s, sep);
  }

  /** A string ending in the separator has an empty last piece. */
  lemma LastPieceAfterTrailingSep(s: string, sep: char)
    requires s != [] && s[|s| - 1] == sep
    ensures LastPiece(s, sep) == []
  {
    LastPieceIsSuffix(s, sep);
  }

  // ---------------------------------------------------------------- split()

  /** `w` holds no whitespace character. */
  predicate NoSpace(w: string) {
    forall j :: 0 <= j < |w| ==> !IsSpace(w[j])
  }

  /** The whitespace in front of the first word. */
  function Lead(s: string): (g: string)
    ensures |g| <= |s| && g == s[..|g|] && AllSpace(g)
    ensures g == s <==> TrimLeft(s, WhiteSpace) == []
  {
    var t := TrimLeft(s, WhiteSpace);
    assert s[..|s| - |t|] == s <==> t == [];
    s[..|s| - |t|]
  }

  /** The first word: the run of non-space characters after the leading whitespace. */
  function First(s: string): (w: string)
    ensures NoSpace(w)
    ensures TrimLeft(s, WhiteSpace) != [] ==> w != []
  {
    WordPrefix(TrimLeft(s, WhiteSpace))
  }

  /** What follows the first word: nothing, or text starting with whitespace. */
  function After(s: string): (r: string)
    ensures TrimLeft(s, WhiteSpace) != [] ==> |r| < |s|
    ensures r == [] || IsSpace(r[0])
  {
    var t := TrimLeft(s, WhiteSpace);
    t[|WordPrefix(t)|..]
  }

  /** Python's `s.split()` with no argument: the maximal runs of non-space characters. */
  function Words(s: string): seq<string>
    decreases |s|
  {
    if TrimLeft(s, WhiteSpace) == [] then [] else [First(s)] + Words(After(s))
  }

  /** Every word is non-empty and free of whitespace. */
  lemma {:induction false} WordsAreWords(s: string)
    ensures forall i :: 0 <= i < |Words(s)| ==> Words(s)[i] != [] && NoSpace(Words(s)[i])
    decreases |s|
  {
    if TrimLeft(s, WhiteSpace) != [] {
      var rest := Words(After(s));
      WordsAreWords(After(s));
      assert Words(s) == [First(s)] + rest;
      forall i | 0 <= i < |Words(s)| ensures Words(s)[i] != [] && NoSpace(Words(s)[i]) {
        if i > 0 { assert Words(s)[i] == rest[i - 1]; }
      }
    }
  }

  /** `g` is made of whitespace only. */
  predicate AllSpace(g: string) {
    forall j :: 0 <= j < |g| ==> IsSpace(g[j])
  }

  /** The whitespace runs around the words of `s`: the one in front, then the one after
      each word. */
  function Gaps(s: string): seq<string>
    decreases |s|
  {
    if TrimLeft(s, WhiteSpace) == [] then [Lead(s)] else [Lead(s)] + Gaps(After(s))
  }

  /** The gaps and the words laid out alternately, a gap first and a gap last. */
  function Interleave(gaps: seq<string>, words: seq<string>): string
    requires |gaps| == |words| + 1
    decreases |words|
  {
    if words == [] then gaps[0] else gaps[0] + words[0] + Interleave(gaps[1..], words[1..])
  }

  /** `split()` loses nothing but whitespace: the string is its words separated by
      non-empty whitespace runs, with whitespace (possibly none) at either end. */
  lemma WordsCover(s: string)
    ensures |Gaps(s)| == |Words(s)| + 1
    ensures forall i :: 0 <= i < |Gaps(s)| ==> AllSpace(Gaps(s)[i])
    ensures forall i :: 0 < i < |Gaps(s)| - 1 ==> Gaps(s)[i] != []
    ensures s == Interleave(Gaps(s), Words(s))
  {
    GapsCount(s);
    GapsAreSpace(s);
    InnerGapsNonEmpty(s);
    Interleaved(s);
  }

  lemma {:induction false} GapsCount(s: string)
    ensures |Gaps(s)| == |Words(s)| + 1
    decreases |s|
  {
    if TrimLeft(s, WhiteSpace) != [] {
      GapsCount(After(s));
    }
  }

  lemma {:induction false} GapsAreSpace(s: string)
    ensures forall i :: 0 <= i < |Gaps(s)| ==> AllSpace(Gaps(s)[i])
    decreases |s|
  {
    if TrimLeft(s, WhiteSpace) != [] {
      var gs := Gaps(After(s));
      GapsAreSpace(After(s));
      GapsUnfold(s);
      SpaceCons(Lead(s), gs);
    }
  }

  lemma {:induction false} InnerGapsNonEmpty(s: string)
    ensures forall i :: 0 < i < |Gaps(s)| - 1 ==> Gaps(s)[i] != []
    decreases |s|
  {
    if TrimLeft(s, WhiteSpace) != [] {
      var rest := After(s);
      var gs := Gaps(rest);
      InnerGapsNonEmpty(rest);
      GapsUnfold(s);
      if |gs| > 1 {
        LeadNonEmpty(rest);
      }
      InnerCons(Lead(s), gs);
    }
  }

  lemma SpaceCons(g: string, gs: seq<string>)
    requires AllSpace(g) && forall i :: 0 <= i < |gs| ==> AllSpace(gs[i])
    ensures forall i :: 0 <= i < |[g] + gs| ==> AllSpace(([g] + gs)[i])
  {
    forall i | 0 < i < |[g] + gs| ensures AllSpace(([g] + gs)[i]) {
      assert ([g] + gs)[i] == gs[i - 1];
    }
  }

  lemma InnerCons(g: string, gs: seq<string>)
    requires forall i :: 0 < i < |gs| - 1 ==> gs[i] != []
    requires |gs| > 1 ==> gs[0] != []
    ensures forall i :: 0 < i < |[g] + gs| - 1 ==> ([g] + gs)[i] != []
  {
    forall i | 0 < i < |[g] + gs| - 1 ensures ([g] + gs)[i] != [] {
      assert ([g] + gs)[i] == gs[i - 1];
    }
  }

  /** The gaps are the leading whitespace and the gaps of what follows the first word. */
  lemma GapsUnfold(s: string)
    requires TrimLeft(s, WhiteSpace) != []
    ensures Gaps(s) == [Lead(s)] + Gaps(After(s))
  {
  }

  /** Text that starts with whitespace and holds a word has a non-empty first gap. */
  lemma LeadNonEmpty(s: string)
    requires |Gaps(s)| > 1 && (s == [] || IsSpace(s[0]))
    ensures Gaps(s)[0] != []
  {
    assert TrimLeft(s, WhiteSpace) != [];
    assert s != [] && IsSpace(s[0]);
    assert Gaps(s)[0] == Lead(s);
  }

  lemma {:induction false} Interleaved(s: string)
    ensures |Gaps(s)| == |Words(s)| + 1
    ensures s == Interleave(Gaps(s), Words(s))
    decreases |s|
  {
    GapsCount(s);
    if TrimLeft(s, WhiteSpace) != [] {
      Interleaved(After(s));
      assert Gaps(s)[1..] == Gaps(After(s)) && Words(s)[1..] == Words(After(s));
      SplitsAt(s);
    } else {
      assert Gaps(s) == [s];
    }
  }

  /** Leading whitespace, the first word and what follows make up the string. */
  lemma SplitsAt(s: string)
    requires TrimLeft(s, WhiteSpace) != []
    ensures s == Lead(s) + First(s) + After(s)
  {
    var t := TrimLeft(s, WhiteSpace);
    var k, w := |s| - |t|, WordPrefix(t);
    assert Lead(s) == s[..k] && t == s[k..];
    assert First(s) == t[..|w|] && After(s) == t[|w|..];
    SplitConcat(t, |w|);
    SplitConcat(s, k);
  }

  lemma SplitConcat(s: string, k: nat)
    requires k <= |s|
    ensures s == s[..k] + s[k..]
  {
  }

  /** The leading run of non-space characters. */
  function WordPrefix(s: string): (w: string)
    ensures |w| <= |s| && w == s[..|w|]
    ensures NoSpace(w)
    ensures |w| < |s| ==> IsSpace(s[|w|])
    ensures s != [] && !IsSpace(s[0]) ==> w != []
  {
    if s == [] || IsSpace(s[0]) then [] else [s[0]] + WordPrefix(s[1..])
  }

  /** A non-empty string without whitespace splits into itself. */
  lemma WordsOfWord(s: string)
    requires s != [] && NoSpace(s)
    ensures Words(s) == [s]
  {
    WordPrefixOfWord(s);
    assert s[|s|..] == [];
  }

  lemma {:induction false} WordPrefixOfWord(s: string)
    requires NoSpace(s)
    ensures WordPrefix(s) == s
  {
    if s != [] {
      assert !IsSpace(s[0]);
      WordPrefixOfWord(s[1..]);
    }
  }

  // ---------------------------------------------------------------- count

  /** Python's `s.count(p)` for non-empty `p`: non-overlapping occurrences, scanned left to right. */
  function Count(s: string, p: string): nat
    requires p != []
    decreases |s|
  {
    if |s| < |p| then 0
    else if s[..|p|] == p then 1 + Count(s[|p|..], p)
    else Count(s[1..], p)
  }

  /** `Count` is zero exactly when `p` does not occur in `s`. */
  lemma {:induction false} CountZeroIff(s: string, p: string)
    requires p != []
    ensures Count(s, p) == 0 <==> forall i :: !OccursAt(s, p, i)
    decreases |s|
  {
    if |s| >= |p| {
      if s[..|p|] == p {
        assert OccursAt(s, p, 0);
      } else {
        CountZeroIff(s[1..], p);
        if Count(s[1..], p) == 0 {
          forall i ensures !OccursAt(s, p, i) {
            if 1 <= i {
              OccursInTail(s, p, i);
              assert !OccursAt(s[1..], p, i - 1);
            }
          }
        } else {
          var i :| OccursAt(s[1..], p, i);
          OccursInTail(s, p, i + 1);
        }
      }
    }
  }
}
