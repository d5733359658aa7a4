/**
 * The parts of Python's `urllib.parse` the downloader uses: `urlparse` (through which
 * `parse_filename` reads a link) and `urljoin` applied to a reference that starts
 * with `//`. Both follow CPython 3.12: `urlsplit` first strips leading C0 controls
 * and spaces and removes every tab, CR and LF; an authority with an unbalanced `[`
 * or `]` raises `ValueError`; `urlunsplit` leaves out an empty query or fragment and
 * `urlunparse` an empty `;params`.
 */
module UrlLib {
  import opened Wrappers
  import opened Strings

  predicate IsAsciiLetter(c: char) {
    ('a' <= c <= 'z') || ('A' <= c <= 'Z')
  }

  /** `urllib.parse.scheme_chars`: ASCII letters, digits, `+`, `-` and `.`. */
  predicate IsSchemeChar(c: char) {
    IsAsciiLetter(c) || ('0' <= c <= '9') || c == '+' || c == '-' || c == '.'
  }

  function LowerChar(c: char): char {
    if 'A' <= c <= 'Z' then (c as int + 32) as char else c
  }

  function Lower(s: string): (r: string)
    ensures |r| == |s| && forall i :: 0 <= i < |s| ==> r[i] == LowerChar(s[i])
  {
    seq(|s|, i requires 0 <= i < |s| => LowerChar(s[i]))
  }

  /** No character of `s` is in `cs`. */
  predicate Free(s: string, cs: set<char>) {
    forall k :: 0 <= k < |s| ==> s[k] !in cs
  }

  // ---------------------------------------------------------------- cleanup

  /** `_WHATWG_C0_CONTROL_OR_SPACE`: the characters U+0000 to U+0020. */
  predicate IsC0OrSpace(c: char) {
    c <= ' '
  }

  /** `_UNSAFE_URL_BYTES_TO_REMOVE`: tab, carriage return and line feed. */
  const Unsafe: set<char> := {'\t', '\r', '\n'}

  /** `url.lstrip(_WHATWG_C0_CONTROL_OR_SPACE)`. */
  function LStripC0(s: string): (r: string)
    ensures |r| <= |s| && r == s[|s| - |r|..]
    ensures r == [] || !IsC0OrSpace(r[0])
    ensures forall k :: 0 <= k < |s| - |r| ==> IsC0OrSpace(s[k])
    decreases |s|
  {
    if s != [] && IsC0OrSpace(s[0]) then LStripC0(s[1..]) else s
  }

  /** `url.replace(b, "")` for each unsafe character `b`: every tab, CR and LF removed,
      every other character kept, in order. */
  function RemoveUnsafe(s: string): (r: string)
    ensures |r| <= |s| && Free(r, Unsafe)
    ensures s != [] && s[0] !in Unsafe ==> r != [] && r[0] == s[0]
    decreases |s|
  {
    if s == [] then [] else (if s[0] in Unsafe then [] else [s[0]]) + RemoveUnsafe(s[1..])
  }

  /** The removal keeps every other character as often as it occurs. */
  lemma {:induction false} RemoveUnsafeKeeps(s: string)
    ensures forall c :: multiset(RemoveUnsafe(s))[c] == if c in Unsafe then 0 else multiset(s)[c]
    decreases |s|
  {
    if s != [] {
      RemoveUnsafeKeeps(s[1..]);
      assert s == [s[0]] + s[1..];
    }
  }

  /** The cleanup `urlsplit` starts with: leading C0 controls and spaces stripped, then
      every tab, CR and LF removed. A first character that is no control or space stays. */
  function Clean(url: string): (u: string)
    ensures Free(u, Unsafe)
    ensures u == [] || !IsC0OrSpace(u[0])
    ensures url != [] && !IsC0OrSpace(url[0]) ==> u != [] && u[0] == url[0]
  {
    RemoveUnsafe(LStripC0(url))
  }

  lemma {:induction false} RemoveUnsafeOfFree(s: string)
    requires Free(s, Unsafe)
    ensures RemoveUnsafe(s) == s
    decreases |s|
  {
    if s != [] {
      RemoveUnsafeOfFree(s[1..]);
    }
  }

  /** A tab, CR or LF anywhere, or a control or space in front, does not change what
      the cleanup yields. */
  lemma {:induction false} CleanIgnoresUnsafe(url: string)
    ensures Clean(RemoveUnsafe(url)) == Clean(url)
    ensures Clean(LStripC0(url)) == Clean(url)
    decreases |url|
  {
    LStripC0Idempotent(url);
    if url != [] {
      if IsC0OrSpace(url[0]) {
        CleanIgnoresUnsafe(url[1..]);
        CleanDropsC0Head(url);
      } else {
        CleanOfPlainHead(url);
      }
    }
  }

  /** A control or space in front is dropped both by the cleanup and after the removal. */
  lemma CleanDropsC0Head(url: string)
    requires url != [] && IsC0OrSpace(url[0])
    ensures Clean(url) == Clean(url[1..])
    ensures Clean(RemoveUnsafe(url)) == Clean(RemoveUnsafe(url[1..]))
  {
    assert LStripC0(url) == LStripC0(url[1..]);
    if url[0] in Unsafe {
      assert RemoveUnsafe(url) == RemoveUnsafe(url[1..]);
    } else {
      var r := RemoveUnsafe(url[1..]);
      assert RemoveUnsafe(url) == [url[0]] + r;
      LStripC0Head(url[0], r);
    }
  }

  lemma LStripC0Head(c: char, r: string)
    requires IsC0OrSpace(c)
    ensures LStripC0([c] + r) == LStripC0(r)
  {
    assert ([c] + r)[1..] == r;
  }

  /** A URL that starts with neither a control nor a space is only stripped of its unsafe
      characters, and a second removal finds none. */
  lemma CleanOfPlainHead(url: string)
    requires url != [] && !IsC0OrSpace(url[0])
    ensures Clean(RemoveUnsafe(url)) == Clean(url)
  {
    var r := RemoveUnsafe(url);
    assert Clean(url) == r;
    assert LStripC0(r) == r;
    RemoveUnsafeOfFree(r);
  }

  lemma LStripC0Idempotent(s: string)
    ensures LStripC0(LStripC0(s)) == LStripC0(s)
  {
  }

  /** A string without unsafe characters that does not start with a control or a space
      is left alone by the cleanup. */
  lemma CleanOfClean(s: string)
    requires Free(s, Unsafe) && (s == [] || !IsC0OrSpace(s[0]))
    ensures Clean(s) == s
  {
    RemoveUnsafeOfFree(s);
  }

  // ---------------------------------------------------------------- scheme and authority

  /** The prefix before the first `:` is a scheme: non-empty, starting with an ASCII
      letter, made of scheme characters only. */
  predicate HasScheme(url: string) {
    var i := Find(url, ":");
    i > 0 && IsAsciiLetter(url[0]) && forall k :: 0 <= k < i ==> IsSchemeChar(url[k])
  }

  /** The scheme `urlsplit` finds (lower-cased) and the text after its `:`. */
  function SplitScheme(url: string): (parts: (string, string))
    ensures HasScheme(url) ==> |parts.0| < |url| && url == url[..|parts.0|] + ":" + parts.1
    ensures !HasScheme(url) ==> parts == ("", url)
  {
    if HasScheme(url) then
      var i := Find(url, ":");
      assert url == url[..i] + url[i..i + 1] + url[i + 1..];
      (Lower(url[..i]), url[i + 1..])
    else ("", url)
  }

  /** What a scheme looks like once `urlsplit` has found it: empty (none found), or a
      lower-case ASCII letter followed by scheme characters. */
  predicate SchemeOk(s: string) {
    && (s != [] ==> IsAsciiLetter(s[0]))
    && Lower(s) == s
    && forall k :: 0 <= k < |s| ==> IsSchemeChar(s[k])
  }

  /** Index of the first `c` in `s` at or after `from`, or `|s|` if there is none. */
  function IndexFrom(s: string, c: char, from: nat): (i: nat)
    requires from <= |s|
    ensures from <= i <= |s|
    ensures i < |s| ==> s[i] == c
    ensures forall k :: from <= k < i ==> s[k] != c
    decreases |s| - from
  {
    if from == |s| then |s| else if s[from] == c then from else IndexFrom(s, c, from + 1)
  }

  function Min(a: nat, b: nat): nat {
    if a <= b then a else b
  }

  /** `_splitnetloc(url, 2)`: the authority ends at the first `/`, `?` or `#` after `//`. */
  function NetlocEnd(rest: string): (d: nat)
    requires 2 <= |rest|
    ensures 2 <= d <= |rest|
    ensures forall k :: 2 <= k < d ==> rest[k] !in {'/', '?', '#'}
    ensures d < |rest| ==> rest[d] in {'/', '?', '#'}
  {
    Min(IndexFrom(rest, '/', 2), Min(IndexFrom(rest, '?', 2), IndexFrom(rest, '#', 2)))
  }

  /** The authority (`netloc`) of a cleaned URL, empty when there is no `//`. */
  function Netloc(u: string): string {
    var rest := SplitScheme(u).1;
    if StartsWith(rest, "//") then rest[2..NetlocEnd(rest)] else ""
  }

  /** What is left of a cleaned URL after the scheme and, when present, the `//authority`. */
  function AfterAuthority(u: string): string {
    var rest := SplitScheme(u).1;
    if StartsWith(rest, "//") then rest[NetlocEnd(rest)..] else rest
  }

  /** The check `urlsplit` makes on the authority: a `[` without a `]`, or the reverse,
      raises `ValueError("Invalid IPv6 URL")`. */
  predicate UnbalancedBrackets(netloc: string) {
    ('[' in netloc) != (']' in netloc)
  }

  // ---------------------------------------------------------------- urlparse

  /** `urlparse.uses_params`: the schemes whose last path segment may carry `;params`. */
  const UsesParams: set<string> := {
    "", "ftp", "hdl", "prospero", "http", "imap", "https", "shttp", "rtsp", "rtsps", "rtspu",
    "sip", "sips", "mms", "sftp", "tel"
  }

  /** `urlparse.uses_relative`: the schemes `urljoin` resolves against. */
  const UsesRelative: set<string> := {
    "", "ftp", "http", "gopher", "nntp", "imap", "wais", "file", "https", "shttp", "mms",
    "prospero", "rtsp", "rtsps", "rtspu", "sftp", "svn", "svn+ssh", "ws", "wss"
  }

  /** `urlparse.uses_netloc`: the schemes `urlunsplit` writes an authority for. */
  const UsesNetloc: set<string> := {
    "", "ftp", "http", "gopher", "nntp", "telnet", "imap", "wais", "file", "mms", "https",
    "shttp", "snews", "prospero", "rtsp", "rtsps", "rtspu", "rsync", "svn", "svn+ssh",
    "sftp", "nfs", "git", "git+ssh", "ws", "wss", "itms-services"
  }

  /** `s.split(c, 1)` taken apart: the text before the first `c` and the text after
      it, or all of `s` and `""` when `c` does not occur. */
  function SplitOnce(s: string, c: char): (r: (string, string))
    ensures c !in r.0
    ensures |r.0| <= |s| && r.0 == s[..|r.0|]
    ensures |r.1| <= |s| && r.1 == s[|s| - |r.1|..]
    ensures c in s ==> s == r.0 + [c] + r.1
    ensures c !in s ==> r == (s, "")
  {
    var i := IndexFrom(s, c, 0);
    if i < |s| then
      assert s == s[..i] + [c] + s[i + 1..];
      (s[..i], s[i + 1..])
    else (s, "")
  }

  /** Index of the last `/` in `s`. */
  function LastSlash(s: string): (i: nat)
    requires '/' in s
    ensures i < |s| && s[i] == '/' && forall k :: i < k < |s| ==> s[k] != '/'
  {
    if s[|s| - 1] == '/' then |s| - 1
    else
      assert '/' in s[..|s| - 1] by {
        var j :| 0 <= j < |s| && s[j] == '/';
        assert s[..|s| - 1][j] == '/';
      }
      LastSlash(s[..|s| - 1])
  }

  /** `_splitparams`, called when the path holds a `;`: the path cut at the first `;`
      of its last segment, and what follows that `;`. */
  function SplitParams(path: string): (r: (string, string))
    requires ';' in path
  {
    var from := if '/' in path then LastSlash(path) else 0;
    var i := IndexFrom(path, ';', from);
    if i < |path| then (path[..i], path[i + 1..]) else (path, "")
  }

  /** The six fields of `urlparse`'s result. */
  datatype Parts = Parts(scheme: string, netloc: string, path: string, params: string,
                         query: string, fragment: string)

  /**
   * `urlparse(url, defaultScheme)`: after the cleanup, the scheme when the text before
   * the first `:` is one (else `defaultScheme`), the authority after `//`, then the
   * fragment after the first `#`, the query after the first `?`, and `;params` when
   * the scheme allows them. An unbalanced bracket in the authority raises `ValueError`.
   * The callers pass `""` or a scheme already found, which the cleanup leaves alone.
   */
  function UrlParse(url: string, defaultScheme: string): (r: Result<Parts, string>)
    ensures r.Failure? <==> UnbalancedBrackets(Netloc(Clean(url)))
    ensures r.Failure? ==> r.error == "Invalid IPv6 URL"
    ensures r.Success? ==> r.value.netloc == Netloc(Clean(url))
    ensures r.Success? && !HasScheme(Clean(url)) ==> r.value.scheme == defaultScheme
  {
    var u := Clean(url);
    var r := ParseClean(u, defaultScheme);
    assert r.Failure? <==> UnbalancedBrackets(Netloc(u));
    r
  }

  /** `urlsplit` and `urlparse` after the cleanup. */
  function ParseClean(u: string, defaultScheme: string): (r: Result<Parts, string>)
    ensures r.Failure? <==> UnbalancedBrackets(Netloc(u))
    ensures r.Failure? ==> r.error == "Invalid IPv6 URL"
    ensures r.Success? ==> r.value.netloc == Netloc(u)
    ensures r.Success? && !HasScheme(u) ==> r.value.scheme == defaultScheme
  {
    var scheme := if HasScheme(u) then SplitScheme(u).0 else defaultScheme;
    var netloc := Netloc(u);
    if UnbalancedBrackets(netloc) then Failure("Invalid IPv6 URL")
    else Success(SplitTail(scheme, netloc, AfterAuthority(u)))
  }

  /** A tab, CR or LF anywhere in a URL, or a control or space in front, does not change
      what `urlparse` reports. */
  lemma UrlParseIgnoresUnsafe(url: string, defaultScheme: string)
    ensures UrlParse(RemoveUnsafe(url), defaultScheme) == UrlParse(url, defaultScheme)
    ensures UrlParse(LStripC0(url), defaultScheme) == UrlParse(url, defaultScheme)
  {
    CleanIgnoresUnsafe(url);
  }

  /** The rest of `urlsplit` and `urlparse` once scheme and authority are known. */
  function SplitTail(scheme: string, netloc: string, tail: string): (p: Parts)
    ensures p.scheme == scheme && p.netloc == netloc
  {
    var (beforeFragment, fragment) := SplitOnce(tail, '#');
    var (path0, query) := SplitOnce(beforeFragment, '?');
    var (path, params) := PathParams(scheme, path0);
    Parts(scheme, netloc, path, params, query, fragment)
  }

  /** The `;params` split `urlparse` makes when the scheme allows params and the path
      has a `;`. */
  function PathParams(scheme: string, path0: string): (string, string) {
    if scheme in UsesParams && ';' in path0 then SplitParams(path0) else (path0, "")
  }

  // ---------------------------------------------------------------- urlunparse

  function SchemePrefix(scheme: string): string {
    if scheme == [] then "" else scheme + ":"
  }

  /** The authority part `urlunsplit` writes in front of the path. A path that does not
      start with `/` gets one when there is an authority. */
  function AuthorityPart(scheme: string, netloc: string, url: string): string {
    if netloc != [] then "//" + netloc + (if url != [] && url[0] != '/' then "/" + url else url)
    else if StartsWith(url, "//") then "//" + url
    else if scheme != [] && scheme in UsesNetloc && (url == [] || url[0] == '/') then "//" + url
    else url
  }

  function QueryPart(query: string): string {
    if query == [] then "" else "?" + query
  }

  function FragmentPart(fragment: string): string {
    if fragment == [] then "" else "#" + fragment
  }

  /** `urlunsplit`: an empty query or fragment is left out. */
  function Unsplit(scheme: string, netloc: string, url: string, query: string, fragment: string): string {
    SchemePrefix(scheme) + AuthorityPart(scheme, netloc, url) + QueryPart(query) + FragmentPart(fragment)
  }

  /** The path with its `;params`, which `urlunparse` leaves out when empty. */
  function WithParams(path: string, params: string): string {
    if params == [] then path else path + ";" + params
  }

  /** `urlunparse`. */
  function Unparse(p: Parts): string {
    Unsplit(p.scheme, p.netloc, WithParams(p.path, p.params), p.query, p.fragment)
  }

  // ---------------------------------------------------------------- urljoin

  /** The loop of `urljoin` that drops `.` segments and lets `..` remove the segment
      before it (none when there is none). */
  function DropDots(segments: seq<string>): (r: seq<string>)
    ensures |r| <= |segments|
    ensures forall k :: 0 <= k < |r| ==> r[k] != "." && r[k] != ".."
    decreases |segments|
  {
    if segments == [] then []
    else
      var r := DropDots(segments[..|segments| - 1]);
      var seg := segments[|segments| - 1];
      if seg == ".." then (if r == [] then [] else r[..|r| - 1])
      else if seg == "." then r
      else r + [seg]
  }

  /** The non-empty strings of `s`, in order (`filter(None, ...)`). */
  function NonEmpty(s: seq<string>): (r: seq<string>)
    ensures |r| <= |s| && forall k :: 0 <= k < |r| ==> r[k] != []
    decreases |s|
  {
    if s == [] then [] else (if s[0] == [] then [] else [s[0]]) + NonEmpty(s[1..])
  }

  /** The path `urljoin` resolves from the base's path and the reference's non-empty
      path: segments of the reference (after the base's directory unless the
      reference's path starts with `/`), dot segments removed, a trailing `.` or `..`
      leaving a trailing `/`, and `/` when nothing is left. */
  function ResolvePath(basePath: string, path: string): (r: string)
    ensures r != []
  {
    var baseParts := Split(basePath, '/');
    var baseDir := if baseParts[|baseParts| - 1] != [] then baseParts[..|baseParts| - 1] else baseParts;
    var segments :=
      if StartsWith(path, "/") then Split(path, '/')
      else
        var s := baseDir + Split(path, '/');
        if |s| < 2 then s else [s[0]] + NonEmpty(s[1..|s| - 1]) + [s[|s| - 1]];
    var last := segments[|segments| - 1];
    var resolved := DropDots(segments) + (if last == "." || last == ".." then [""] else []);
    if resolved == [] || Join(resolved, '/') == [] then "/" else Join(resolved, '/')
  }

  /**
   * `urljoin(base, ref)` for a reference `ref` that starts with `//` (a network-path
   * reference, section 4.2 of RFC 3986). An empty base gives `ref` untouched. Both are
   * parsed, so either may raise `ValueError`. A base scheme `urljoin` does not
   * resolve against gives `ref` untouched. A reference with an authority is written
   * back under the base's scheme; one without takes the base's authority, and then
   * the base's path, params and (when it has none) query if its own path is empty,
   * or its own path with dot segments removed.
   */
  function JoinNetworkPath(base: string, ref: string): (r: Result<string, string>)
    requires StartsWith(ref, "//")
    ensures base == [] ==> r == Success(ref)
    ensures r.Failure? <==>
              base != [] && (UrlParse(base, "").Failure?
                             || UrlParse(ref, UrlParse(base, "").value.scheme).Failure?)
    ensures r.Failure? ==> r.error == "Invalid IPv6 URL"
  {
    if base == [] then Success(ref)
    else
      match UrlParse(base, "")
      case Failure(e) => Failure(e)
      case Success(b) =>
        match UrlParse(ref, b.scheme)
        case Failure(e) => Failure(e)
        case Success(p) =>
          if p.scheme != b.scheme || b.scheme !in UsesRelative then Success(ref)
          // every scheme of `uses_relative` is in `uses_netloc`
          else if p.netloc != [] then Success(Unparse(p))
          else if p.path == [] && p.params == [] then
            Success(Unparse(p.(netloc := b.netloc, path := b.path, params := b.params,
                               query := if p.query != [] then p.query else b.query)))
          else
            Success(Unparse(p.(netloc := b.netloc, path := ResolvePath(b.path, p.path))))
  }

  // ---------------------------------------------------------------- what parsing yields

  /** The lower-cased scheme `urlsplit` finds is itself a scheme: non-empty, led by a
      letter, made of scheme characters, and lower-case. */
  lemma SchemeShape(u: string)
    requires HasScheme(u)
    ensures SplitScheme(u).0 != [] && SchemeOk(SplitScheme(u).0)
  {
    var i := Find(u, ":");
    var s := SplitScheme(u).0;
    assert s == Lower(u[..i]);
    forall k | 0 <= k < |s| ensures IsSchemeChar(s[k]) && LowerChar(s[k]) == s[k] {
      assert IsSchemeChar(u[k]);
    }
  }

  /** The fields of a URL with an authority, as `UrlParse` leaves them: no field holds
      the separator that ends it or a character the cleanup removes; a path is empty or
      starts with `/`, and carries no params of its own when the scheme allows them. */
  ghost predicate WellFormed(p: Parts) {
    && SchemeOk(p.scheme)
    && p.netloc != [] && !UnbalancedBrackets(p.netloc)
    && Free(p.netloc, {'/', '?', '#', '\t', '\r', '\n'})
    && TailOk(p)
  }

  /** The path, params, query and fragment as `SplitTail` leaves them after an authority. */
  ghost predicate TailOk(p: Parts) {
    && Free(p.path, {'?', '#', '\t', '\r', '\n'})
    && Free(p.params, {'/', '?', '#', '\t', '\r', '\n'})
    && Free(p.query, {'#', '\t', '\r', '\n'})
    && Free(p.fragment, Unsafe)
    && (p.scheme !in UsesParams ==> p.params == [])
    && (p.path == [] ==> p.params == [])
    && (p.path != [] ==> p.path[0] == '/' && (p.scheme in UsesParams ==> NoParamsIn(p.path)))
  }

  /** No `;` after the last `/` of a path that has one. */
  ghost predicate NoParamsIn(path: string)
    requires '/' in path
  {
    forall k :: LastSlash(path) < k < |path| ==> path[k] != ';'
  }

  /** A parsed URL with an authority is well formed. */
  lemma ParseWellFormed(url: string, defaultScheme: string)
    requires SchemeOk(defaultScheme)
    requires UrlParse(url, defaultScheme).Success? && UrlParse(url, defaultScheme).value.netloc != []
    ensures WellFormed(UrlParse(url, defaultScheme).value)
  {
    var u := Clean(url);
    var p := UrlParse(url, defaultScheme).value;
    ParsedAs(url, defaultScheme);
    var scheme := if HasScheme(u) then SplitScheme(u).0 else defaultScheme;
    if HasScheme(u) {
      SchemeShape(u);
    }
    var rest := SplitScheme(u).1;
    AuthorityOf(u);
    RestFree(u);
    var d := NetlocEnd(rest);
    SliceFree(rest, d, |rest|, Unsafe);
    NetlocFree(rest);
    TailWellFormed(scheme, p.netloc, rest[d..]);
  }

  lemma ParsedAs(url: string, defaultScheme: string)
    requires UrlParse(url, defaultScheme).Success?
    ensures var u := Clean(url);
            UrlParse(url, defaultScheme).value
              == SplitTail(if HasScheme(u) then SplitScheme(u).0 else defaultScheme, Netloc(u), AfterAuthority(u))
  {
  }

  lemma AuthorityOf(u: string)
    requires Netloc(u) != []
    ensures var rest := SplitScheme(u).1;
            && StartsWith(rest, "//") && Netloc(u) == rest[2..NetlocEnd(rest)]
            && AfterAuthority(u) == rest[NetlocEnd(rest)..]
  {
  }

  /** The authority has no separator and no unsafe character. */
  lemma NetlocFree(rest: string)
    requires 2 <= |rest| && Free(rest, Unsafe)
    ensures Free(rest[2..NetlocEnd(rest)], {'/', '?', '#', '\t', '\r', '\n'})
  {
    var d := NetlocEnd(rest);
    forall k | 0 <= k < d - 2 ensures rest[2..d][k] !in {'/', '?', '#', '\t', '\r', '\n'} {
      assert rest[2..d][k] == rest[2 + k];
    }
  }

  /** What follows the scheme of a cleaned URL has no unsafe character either. */
  lemma RestFree(u: string)
    requires Free(u, Unsafe)
    ensures Free(SplitScheme(u).1, Unsafe)
  {
    var rest := SplitScheme(u).1;
    if HasScheme(u) {
      var n := |u| - |rest|;
      assert u[n..] == rest;
      SliceFree(u, n, |u|, Unsafe);
    }
  }

  lemma SliceFree(s: string, i: nat, j: nat, cs: set<char>)
    requires i <= j <= |s| && Free(s, cs)
    ensures Free(s[i..j], cs)
  {
    forall k | 0 <= k < j - i ensures s[i..j][k] !in cs { assert s[i..j][k] == s[i + k]; }
  }

  /** What `SplitTail` yields from the text after an authority. */
  lemma TailWellFormed(scheme: string, netloc: string, tail: string)
    requires tail == [] || tail[0] in {'/', '?', '#'}
    requires Free(tail, Unsafe)
    ensures TailOk(SplitTail(scheme, netloc, tail))
  {
    var (beforeFragment, fragment) := SplitOnce(tail, '#');
    SplitOnceFree(tail, '#', Unsafe);
    var (path0, query) := SplitOnce(beforeFragment, '?');
    SplitOnceFree(beforeFragment, '?', Unsafe + {'#'});
    assert path0 == [] || path0[0] == '/' by {
      if path0 != [] {
        assert path0[0] == beforeFragment[0] == tail[0];
      }
    }
    var cs := Unsafe + {'#', '?'};
    assert Free(path0, cs);
    if scheme in UsesParams && ';' in path0 {
      ParamsSplit(path0, cs);
    }
    var p := SplitTail(scheme, netloc, tail);
    assert (p.path, p.params) == PathParams(scheme, path0);
  }

  /** Both halves of a split keep what the whole was free of; the first also lacks the
      separator. */
  lemma SplitOnceFree(s: string, c: char, cs: set<char>)
    requires Free(s, cs)
    ensures Free(SplitOnce(s, c).0, cs + {c}) && Free(SplitOnce(s, c).1, cs)
  {
    var r := SplitOnce(s, c);
    forall k | 0 <= k < |r.0| ensures r.0[k] !in cs + {c} {
      assert r.0[k] == s[k];
    }
    forall k | 0 <= k < |r.1| ensures r.1[k] !in cs {
      assert r.1[k] == s[|s| - |r.1| + k];
    }
  }

  /** `_splitparams` on a path starting with `/`: the path part keeps its last `/` and
      no `;` after it, the params have no `/`. */
  lemma ParamsSplit(path0: string, cs: set<char>)
    requires path0 != [] && path0[0] == '/' && ';' in path0 && Free(path0, cs)
    ensures var (path, params) := SplitParams(path0);
            && path != [] && path[0] == '/' && NoParamsIn(path)
            && Free(path, cs) && Free(params, cs + {'/'})
  {
    var from := LastSlash(path0);
    var i := IndexFrom(path0, ';', from);
    var path := path0[..i];
    assert i > from;
    assert LastSlash(path) == from by { LastSlashAt(path, from); }
    assert Free(path, cs) by {
      forall k | 0 <= k < |path| ensures path[k] !in cs { assert path[k] == path0[k]; }
    }
    if i < |path0| {
      var params := path0[i + 1..];
      forall k | 0 <= k < |params| ensures params[k] !in cs + {'/'} {
        assert params[k] == path0[i + 1 + k];
      }
    }
  }

  lemma LastSlashAt(s: string, i: nat)
    requires i < |s| && s[i] == '/' && forall k :: i < k < |s| ==> s[k] != '/'
    ensures LastSlash(s) == i
  {
  }

  // ---------------------------------------------------------------- parsing what was written

  /** Writing well-formed fields back and parsing the result gives the same fields:
      dropping an empty query, fragment or params loses nothing `urlparse` reports. */
  lemma ParseUnparse(p: Parts)
    requires WellFormed(p)
    ensures UrlParse(Unparse(p), "") == Success(p)
  {
    var tail := Written(p);
    UnparseShape(p);
    TailFree(p);
    ParseOfWritten(p.scheme, p.netloc, tail);
    TailBack(p);
  }

  /** What `urlunparse` writes after the authority. */
  function Written(p: Parts): string {
    WithParams(p.path, p.params) + QueryPart(p.query) + FragmentPart(p.fragment)
  }

  /** With an authority, `urlunparse` writes the scheme, `//`, the authority and the rest. */
  lemma UnparseShape(p: Parts)
    requires p.netloc != [] && (p.path == [] ==> p.params == [])
    requires p.path == [] || p.path[0] == '/'
    ensures Unparse(p) == SchemePrefix(p.scheme) + ("//" + p.netloc + Written(p))
  {
    var url := WithParams(p.path, p.params);
    var a, q, f := SchemePrefix(p.scheme), QueryPart(p.query), FragmentPart(p.fragment);
    assert url == [] || url[0] == '/';
    assert AuthorityPart(p.scheme, p.netloc, url) == "//" + p.netloc + url;
    calc {
      Unparse(p);
      a + ("//" + p.netloc + url) + q + f;
      { SeqAssoc(a, "//" + p.netloc, url, q, f); }
      a + ("//" + p.netloc + (url + q + f));
    }
  }

  lemma SeqAssoc(a: string, b: string, c: string, d: string, e: string)
    ensures a + (b + c) + d + e == a + (b + (c + d + e))
  {
  }

  /** A URL written as scheme, authority and a tail parses to that scheme, that
      authority, and the split of that tail. */
  lemma ParseOfWritten(scheme: string, netloc: string, tail: string)
    requires SchemeOk(scheme)
    requires Free(netloc, {'/', '?', '#', '\t', '\r', '\n'}) && !UnbalancedBrackets(netloc)
    requires (tail == [] || tail[0] in {'/', '?', '#'}) && Free(tail, Unsafe)
    ensures UrlParse(SchemePrefix(scheme) + ("//" + netloc + tail), "")
              == Success(SplitTail(scheme, netloc, tail))
  {
    var rest := "//" + netloc + tail;
    var s := SchemePrefix(scheme) + rest;
    WrittenFree(scheme, netloc, tail);
    CleanOfClean(s);
    SchemeBack(scheme, rest);
    AuthorityBack(netloc, tail);
    assert Netloc(s) == netloc && AfterAuthority(s) == tail;
  }

  lemma WrittenFree(scheme: string, netloc: string, tail: string)
    requires SchemeOk(scheme)
    requires Free(netloc, Unsafe) && Free(tail, Unsafe)
    ensures var s := SchemePrefix(scheme) + ("//" + netloc + tail);
            Free(s, Unsafe) && !IsC0OrSpace(s[0])
  {
    var rest := "//" + netloc + tail;
    var s := SchemePrefix(scheme) + rest;
    forall k | 0 <= k < |s| ensures s[k] !in Unsafe {
      if k < |SchemePrefix(scheme)| {
        if k < |scheme| { assert s[k] == scheme[k] && IsSchemeChar(scheme[k]); }
      } else {
        var j := k - |SchemePrefix(scheme)|;
        assert s[k] == rest[j];
        if 2 <= j < 2 + |netloc| { assert rest[j] == netloc[j - 2]; }
        if 2 + |netloc| <= j { assert rest[j] == tail[j - 2 - |netloc|]; }
      }
    }
  }

  /** The written tail has no unsafe character. */
  lemma TailFree(p: Parts)
    requires TailOk(p)
    ensures Free(Written(p), Unsafe)
  {
  }

  /** The scheme written in front is found again, with the rest after it. */
  lemma SchemeBack(scheme: string, rest: string)
    requires SchemeOk(scheme) && StartsWith(rest, "//")
    ensures SplitScheme(SchemePrefix(scheme) + rest) == (scheme, rest)
    ensures !HasScheme(SchemePrefix(scheme) + rest) ==> scheme == []
  {
    var s := SchemePrefix(scheme) + rest;
    if scheme == [] {
      assert s == rest && !IsAsciiLetter(s[0]);
    } else {
      assert ':' !in scheme by {
        forall k | 0 <= k < |scheme| ensures scheme[k] != ':' { assert IsSchemeChar(scheme[k]); }
      }
      assert s == scheme + ":" + rest;
      FindAfterPrefix(scheme, rest);
      assert s[..|scheme|] == scheme;
      forall k | 0 <= k < |scheme| ensures IsSchemeChar(s[k]) {
        assert s[k] == scheme[k];
      }
      assert HasScheme(s);
      assert s[|scheme| + 1..] == rest;
    }
  }

  /** The first `:` of `s + ":" + t` is the one after `s`, when `s` has none. */
  lemma FindAfterPrefix(s: string, t: string)
    requires ':' !in s
    ensures Find(s + ":" + t, ":") == |s|
  {
    var u := s + ":" + t;
    assert OccursAt(u, ":", |s|);
    forall j | 0 <= j < |s| ensures !OccursAt(u, ":", j) {
      assert u[j..j + 1] == [s[j]];
    }
  }

  /** The authority written after `//` ends where it was written to end. */
  lemma AuthorityBack(netloc: string, tail: string)
    requires Free(netloc, {'/', '?', '#'})
    requires tail == [] || tail[0] in {'/', '?', '#'}
    ensures var rest := "//" + netloc + tail;
            NetlocEnd(rest) == 2 + |netloc| && rest[2..NetlocEnd(rest)] == netloc
            && rest[NetlocEnd(rest)..] == tail
  {
    var rest := "//" + netloc + tail;
    var d := NetlocEnd(rest);
    forall k | 2 <= k < 2 + |netloc| ensures rest[k] !in {'/', '?', '#'} {
      assert rest[k] == netloc[k - 2];
    }
    if tail != [] {
      assert rest[2 + |netloc|] == tail[0];
    }
  }

  /** Fragment, query and params are split off again where they were written. */
  lemma TailBack(p: Parts)
    requires WellFormed(p)
    ensures SplitTail(p.scheme, p.netloc, Written(p)) == p
  {
    var url := WithParams(p.path, p.params);
    var beforeFragment := url + QueryPart(p.query);
    assert Free(url, {'#', '?'}) by {
      if p.params != [] {
        FreeConcat(p.path + ";", p.params, {'#', '?'});
      }
    }
    assert Free(beforeFragment, {'#'}) by {
      if p.query != [] {
        FreeConcat(url + "?", p.query, {'#'});
      }
    }
    assert Written(p) == beforeFragment + (if p.fragment == [] then "" else ['#'] + p.fragment);
    SplitOnceBack(beforeFragment, '#', p.fragment);
    assert beforeFragment == url + (if p.query == [] then "" else ['?'] + p.query);
    SplitOnceBack(url, '?', p.query);
    ParamsBack(p);
  }

  lemma FreeConcat(a: string, b: string, cs: set<char>)
    requires Free(a, cs) && Free(b, cs)
    ensures Free(a + b, cs)
  {
    forall k | |a| <= k < |a + b| ensures (a + b)[k] !in cs { assert (a + b)[k] == b[k - |a|]; }
  }

  /** Splitting `a`, then `c` and `b` when `b` is not empty, at the first `c` gives `a`
      and `b` back. */
  lemma SplitOnceBack(a: string, c: char, b: string)
    requires Free(a, {c})
    ensures SplitOnce(a + (if b == [] then "" else [c] + b), c) == (a, b)
  {
    if b != [] {
      var s := a + [c] + b;
      assert s == a + ([c] + b);
      assert s[|a|] == c;
      assert IndexFrom(s, c, 0) == |a|;
    } else {
      assert a + "" == a;
    }
  }

  /** The path with its params splits back into the path and the params. */
  lemma ParamsBack(p: Parts)
    requires WellFormed(p)
    ensures PathParams(p.scheme, WithParams(p.path, p.params)) == (p.path, p.params)
  {
    var path0 := WithParams(p.path, p.params);
    if p.scheme in UsesParams && ';' in path0 {
      var from := LastSlash(p.path);
      if p.params != [] {
        assert path0 == p.path + ";" + p.params;
        assert path0[from] == '/';
        forall k | from < k < |path0| ensures path0[k] != '/' {
          if k > |p.path| { assert path0[k] == p.params[k - |p.path| - 1]; }
        }
        LastSlashAt(path0, from);
        assert path0[|p.path|] == ';';
        forall k | from <= k < |p.path| ensures path0[k] != ';' {
          assert path0[k] == p.path[k];
        }
        assert IndexFrom(path0, ';', from) == |p.path|;
        assert path0[..|p.path|] == p.path;
        assert path0[|p.path| + 1..] == p.params;
      } else {
        assert path0 == p.path;
      }
    }
  }

  /** A network-path reference with an authority, resolved against a base `urljoin`
      resolves against, parses back to the base's scheme and the reference's
      authority, path, params, query and fragment. */
  lemma JoinParsesBack(base: string, ref: string)
    requires StartsWith(ref, "//") && base != []
    requires UrlParse(base, "").Success? && UrlParse(base, "").value.scheme in UsesRelative
    requires var p := UrlParse(ref, UrlParse(base, "").value.scheme); p.Success? && p.value.netloc != []
    ensures JoinNetworkPath(base, ref).Success?
    ensures UrlParse(JoinNetworkPath(base, ref).value, "") == UrlParse(ref, UrlParse(base, "").value.scheme)
  {
    var b := UrlParse(base, "").value;
    ParsedSchemeOk(base, "");
    ReferenceKeepsScheme(ref, b.scheme);
    var p := UrlParse(ref, b.scheme).value;
    assert JoinNetworkPath(base, ref) == Success(Unparse(p));
    ParseWellFormed(ref, b.scheme);
    ParseUnparse(p);
  }

  /** The scheme `urlparse` reports is a scheme, given a default that is one. */
  lemma ParsedSchemeOk(url: string, defaultScheme: string)
    requires SchemeOk(defaultScheme) && UrlParse(url, defaultScheme).Success?
    ensures SchemeOk(UrlParse(url, defaultScheme).value.scheme)
  {
    var u := Clean(url);
    if HasScheme(u) {
      SchemeShape(u);
    }
  }

  /** A reference that starts with `//` has no scheme of its own. */
  lemma ReferenceKeepsScheme(ref: string, defaultScheme: string)
    requires StartsWith(ref, "//") && UrlParse(ref, defaultScheme).Success?
    ensures UrlParse(ref, defaultScheme).value.scheme == defaultScheme
  {
    SlashFirst(ref);
    NoSchemeBeforeSlash(ref);
  }

  lemma SlashFirst(url: string)
    requires StartsWith(url, "//")
    ensures url[0] == '/'
  {
    assert url[..2][0] == '/';
  }

  lemma NoSchemeBeforeSlash(url: string)
    requires url != [] && url[0] == '/'
    ensures !HasScheme(Clean(url))
  {
  }
}
