/**
 * `utilities.py`: the file-name helpers that read a link, and the two `term_str`
 * helpers that wrap text in terminal escape codes and measure them.
 */
module Utilities {
  import opened Wrappers
  import opened Strings
  import UrlLib

  // ---------------------------------------------------------------- link helpers

  /** `parse_filename`: the last `/`-separated segment of the path `urlparse` finds in
      the link; `urlparse`'s `ValueError` for an unbalanced bracket passes through. */
  function ParseFilename(link: string): (r: Result<string, string>)
    ensures r.Failure? <==> UrlLib.UrlParse(link, "").Failure?
    ensures r.Failure? ==> r.error == "Invalid IPv6 URL"
    ensures r.Success? ==> r.value == LastPiece(UrlLib.UrlParse(link, "").value.path, '/')
  {
    var parsed := UrlLib.UrlParse(link, "");
    if parsed.Failure? then Failure(parsed.error) else Success(LastPiece(parsed.value.path, '/'))
  }

  /** The file name is a suffix of the parsed path without `/`, preceded by a `/`
      unless it is the whole path. */
  lemma ParseFilenameShape(link: string, p: UrlLib.Parts)
    requires UrlLib.UrlParse(link, "") == Success(p)
    ensures ParseFilename(link) == Success(LastPiece(p.path, '/'))
    ensures var name := LastPiece(p.path, '/');
            |name| <= |p.path| && name == p.path[|p.path| - |name|..] && '/' !in name
            && (|name| < |p.path| ==> p.path[|p.path| - |name| - 1] == '/')
  {
    LastPieceIsSuffix(p.path, '/');
  }

  /** A path that ends in `/` names no file. */
  lemma ParseFilenameOfDirectory(link: string, p: UrlLib.Parts)
    requires UrlLib.UrlParse(link, "") == Success(p)
    requires p.path != [] && p.path[|p.path| - 1] == '/'
    ensures ParseFilename(link) == Success("")
  {
    LastPieceAfterTrailingSep(p.path, '/');
  }

  /** A tab, CR or LF anywhere in the link does not change the file name. */
  lemma ParseFilenameIgnoresUnsafe(link: string)
    ensures ParseFilename(UrlLib.RemoveUnsafe(link)) == ParseFilename(link)
  {
    UrlLib.UrlParseIgnoresUnsafe(link, "");
  }

  /** The file name of a link written from well-formed parts is the last segment of
      the path written into it: the query, fragment and params never reach it. */
  lemma ParseFilenameOfWritten(p: UrlLib.Parts)
    requires UrlLib.WellFormed(p)
    ensures ParseFilename(UrlLib.Unparse(p)) == Success(LastPiece(p.path, '/'))
  {
    UrlLib.ParseUnparse(p);
  }

  /** `parse_extension`: a dot followed by the text after the file name's last dot. */
  function ParseExtension(link: string): (r: Result<string, string>)
    ensures r.Failure? <==> ParseFilename(link).Failure?
    ensures r.Failure? ==> r.error == ParseFilename(link).error
    ensures r.Success? ==> r.value == Extension(ParseFilename(link).value)
  {
    var name := ParseFilename(link);
    if name.Failure? then Failure(name.error) else Success(Extension(name.value))
  }

  /** A dot and the last `.`-separated piece of a file name. */
  function Extension(name: string): (ext: string)
    ensures |ext| >= 1 && ext[0] == '.' && '.' !in ext[1..]
    ensures |ext| - 1 <= |name| && ext[1..] == name[|name| - (|ext| - 1)..]
            && (|ext| - 1 < |name| ==> name[|name| - |ext|] == '.')
  {
    LastPieceIsSuffix(name, '.');
    var ext := "." + LastPiece(name, '.');
    assert ext[1..] == LastPiece(name, '.');
    ext
  }

  /** A file name without a dot is its own extension, after the leading dot. */
  lemma ParseExtensionWithoutDot(link: string)
    requires ParseFilename(link).Success? && '.' !in ParseFilename(link).value
    ensures ParseExtension(link) == Success("." + ParseFilename(link).value)
  {
    LastPieceWithoutSep(ParseFilename(link).value, '.');
  }

  /** The file name is the unique suffix of the path that is free of `/` and preceded by one. */
  lemma ParseFilenameIs(link: string, p: UrlLib.Parts, name: string)
    requires UrlLib.UrlParse(link, "") == Success(p)
    requires |name| < |p.path| && name == p.path[|p.path| - |name|..] && '/' !in name
             && p.path[|p.path| - |name| - 1] == '/'
    ensures ParseFilename(link) == Success(name)
  {
    ParseFilenameShape(link, p);
    LastPieceIs(p.path, '/', name);
  }

  // ---------------------------------------------------------------- terminal strings

  const Esc: char := '\U{001B}'

  /** `termcolor['BOLD']` and `termcolor['END']`. */
  const Bold_: string := [Esc] + "[1m"
  const End_: string := [Esc] + "[0m"

  /** `term_str.bold`: the text between the BOLD and END codes. */
  function Bold(s: string): (r: string)
    ensures |r| == |s| + |Bold_| + |End_|
    ensures r[..|Bold_|] == Bold_ && r[|r| - |End_|..] == End_ && r[|Bold_|..|r| - |End_|] == s
  {
    Bold_ + s + End_
  }

  /** `term_str.len_special`: the characters taken by escape codes, summed over both
      codes as occurrence count times code length; a string with neither code in it
      has none, and conversely. */
  function LenSpecial(s: string): (n: nat)
    ensures n == 0 <==> (forall i :: !OccursAt(s, Bold_, i)) && (forall i :: !OccursAt(s, End_, i))
  {
    CountZeroIff(s, Bold_);
    CountZeroIff(s, End_);
    Count(s, Bold_) * |Bold_| + Count(s, End_) * |End_|
  }

  /** Both codes start with ESC and contain no other ESC. */
  predicate EscCode(p: string) {
    p != [] && p[0] == Esc && Esc !in p[1..]
  }

  /** Text without ESC in front of `t` hides no occurrence of an ESC code. */
  lemma {:induction false} CountSkipsPlainPrefix(x: string, t: string, p: string)
    requires EscCode(p) && Esc !in x
    ensures Count(x + t, p) == Count(t, p)
    decreases |x|
  {
    if x == [] {
      assert x + t == t;
    } else {
      var u := x + t;
      if |u| >= |p| {
        assert x[0] in x;
        assert u[..|p|] != p by { assert u[..|p|][0] != p[0]; }
        assert u[1..] == x[1..] + t;
        assert Count(u, p) == Count(u[1..], p);
        CountSkipsPlainPrefix(x[1..], t, p);
        assert Count(x[1..] + t, p) == Count(t, p);
      } else {
        CountShort(t, p);
        CountShort(u, p);
      }
    }
  }

  lemma CountShort(t: string, p: string)
    requires p != [] && |t| < |p|
    ensures Count(t, p) == 0
  {
  }

  /** Gluing text that starts with ESC onto `a` neither creates nor destroys an
      occurrence of an ESC code across the seam. */
  lemma {:induction false} CountAppendEsc(a: string, b: string, p: string)
    requires EscCode(p) && (b == [] || b[0] == Esc)
    ensures Count(a + b, p) == Count(a, p) + Count(b, p)
    decreases |a|
  {
    if a == [] {
      assert a + b == b;
    } else if b == [] {
      assert a + b == a;
    } else {
      var u := a + b;
      if |u| < |p| {
        CountShort(a, p);
        CountShort(b, p);
      } else if u[..|p|] == p {
        if |a| < |p| {
          NoCodeAcrossSeam(a, b, p);
          assert false;
        }
        assert a[..|p|] == p;
        assert u[|p|..] == a[|p|..] + b;
        CountAppendEsc(a[|p|..], b, p);
      } else {
        assert u[1..] == a[1..] + b;
        CountAppendEsc(a[1..], b, p);
        if |a| < |p| {
          CountShort(a, p);
          CountShort(a[1..], p);
        } else {
          assert a[..|p|] == u[..|p|];
        }
      }
    }
  }

  /** An ESC code cannot start in `a` and end in `b` when `b` starts with ESC. */
  lemma NoCodeAcrossSeam(a: string, b: string, p: string)
    requires EscCode(p) && 0 < |a| < |p| <= |a| + |b| && b[0] == Esc
    ensures (a + b)[..|p|] != p
  {
    var u := a + b;
    assert u[|a|] == Esc;
    assert p[|a|] != Esc by { assert p[1..][|a| - 1] == p[|a|]; }
    assert u[..|p|][|a|] != p[|a|];
  }

  /** Bolding adds exactly the two codes' length to the special characters, so the
      visible length `len(s) - len_special(s)` of a string is the same bold or not. */
  lemma BoldKeepsVisibleLength(s: string)
    ensures LenSpecial(Bold(s)) == LenSpecial(s) + |Bold_| + |End_|
    ensures |Bold(s)| - LenSpecial(Bold(s)) == |s| - LenSpecial(s)
  {
    BoldCountsBold(s);
    BoldCountsEnd(s);
  }

  /** BOLD occurs once more in `bold(s)` than in `s`: the code in front. */
  lemma BoldCountsBold(s: string)
    ensures Count(Bold(s), Bold_) == Count(s, Bold_) + 1
  {
    assert EscCode(Bold_) && EscCode(End_);
    var head := Bold_ + s;
    assert Bold(s) == head + End_;
    CountAppendEsc(head, End_, Bold_);
    assert head[..|Bold_|] == Bold_;
    assert head[|Bold_|..] == s;
    assert Count(End_, Bold_) == 0 by { assert End_[..4] != Bold_ by { assert End_[2] != Bold_[2]; } }
  }

  /** END occurs once more in `bold(s)` than in `s`: the code at the back. */
  lemma BoldCountsEnd(s: string)
    ensures Count(Bold(s), End_) == Count(s, End_) + 1
  {
    assert EscCode(End_);
    var head := Bold_ + s;
    assert Bold(s) == head + End_;
    CountAppendEsc(head, End_, End_);
    // BOLD at the front is skipped over when counting END.
    assert head[..|End_|] != End_ by { assert head[2] != End_[2]; }
    assert head[1..] == Bold_[1..] + s;
    CountSkipsPlainPrefix(Bold_[1..], s, End_);
    assert Count(End_, End_) == 1;
  }
}
