/**
 * URL preparation in sayfalari_getir.py: the input-line filter of `main`,
 * `normalize_url`, the netloc that `urllib.parse.urlparse` extracts, and
 * `get_domain`.
 */
module Urls {
  import opened Wrappers
  import opened Text

  // ---------------------------------------------------------------------
  // The input filter: `[line.strip() for line in f if line.strip()]`
  // ---------------------------------------------------------------------

  /** The lines main keeps, each stripped, in input order. */
  function KeepLines(lines: seq<string>): (kept: seq<string>)
    ensures |kept| <= |lines|
    ensures forall k :: 0 <= k < |kept| ==> kept[k] != "" && IsStripped(kept[k])
  {
    if lines == [] then []
    else
      var t := Strip(lines[|lines| - 1]);
      var init := KeepLines(lines[..|lines| - 1]);
      if t == "" then init else init + [t]
  }

  /** The positions of the lines that KeepLines keeps. */
  function KeptPositions(lines: seq<string>): (ps: seq<nat>)
    ensures forall k :: 0 <= k < |ps| ==> ps[k] < |lines|
  {
    if lines == [] then []
    else
      var init := KeptPositions(lines[..|lines| - 1]);
      if Strip(lines[|lines| - 1]) == "" then init else init + [|lines| - 1]
  }

  /**
   * KeepLines selects, in their original order, exactly the lines that are
   * not blank, and stores each of them stripped.
   */
  lemma {:induction false} KeepLinesSelects(lines: seq<string>)
    ensures |KeptPositions(lines)| == |KeepLines(lines)|
    ensures forall k :: 0 <= k < |KeepLines(lines)| ==>
              KeepLines(lines)[k] == Strip(lines[KeptPositions(lines)[k]])
    ensures forall j, k :: 0 <= j < k < |KeptPositions(lines)| ==>
              KeptPositions(lines)[j] < KeptPositions(lines)[k]
    ensures forall i :: 0 <= i < |lines| ==> (i in KeptPositions(lines) <==> !AllSpace(lines[i]))
  {
    KeptLinesAt(lines);
    KeptPositionsIncrease(lines);
    KeptPositionsExact(lines);
  }

  lemma {:induction false} KeptLinesAt(lines: seq<string>)
    ensures |KeptPositions(lines)| == |KeepLines(lines)|
    ensures forall k :: 0 <= k < |KeepLines(lines)| ==>
              KeepLines(lines)[k] == Strip(lines[KeptPositions(lines)[k]])
  {
    if lines != [] {
      var init := lines[..|lines| - 1];
      KeptLinesAt(init);
      assert forall i :: 0 <= i < |init| ==> init[i] == lines[i];
    }
  }

  lemma {:induction false} KeptPositionsIncrease(lines: seq<string>)
    ensures forall j, k :: 0 <= j < k < |KeptPositions(lines)| ==>
              KeptPositions(lines)[j] < KeptPositions(lines)[k]
  {
    if lines != [] {
      KeptPositionsIncrease(lines[..|lines| - 1]);
    }
  }

  lemma {:induction false} KeptPositionsExact(lines: seq<string>)
    ensures forall i :: 0 <= i < |lines| ==> (i in KeptPositions(lines) <==> !AllSpace(lines[i]))
  {
    if lines != [] {
      var init := lines[..|lines| - 1];
      var last := |lines| - 1;
      var ps := KeptPositions(init);
      KeptPositionsExact(init);
      assert last !in ps;
      var kept := Strip(lines[last]) != "";
      var all := KeptPositions(lines);
      assert all == if kept then ps + [last] else ps;
      assert forall i :: i in all <==> i in ps || (kept && i == last);
      forall i | 0 <= i < |lines|
        ensures i in all <==> !AllSpace(lines[i])
      {
        if i < last {
          assert init[i] == lines[i];
        }
      }
    }
  }

  // ---------------------------------------------------------------------
  // normalize_url
  // ---------------------------------------------------------------------

  /** `u.startswith(("http://", "https://"))`, case-sensitive. */
  predicate HasHttpScheme(u: string) {
    "http://" <= u || "https://" <= u
  }

  /** `normalize_url`: strip, and prefix "https://" unless a scheme is present. */
  function NormalizeUrl(url: string): (u: string)
    ensures u == "" <==> AllSpace(url)
    ensures u != "" ==> HasHttpScheme(u) && IsStripped(u)
    ensures u == Strip(url) || u == "https://" + Strip(url)
    ensures u == Strip(url) <==> (AllSpace(url) || HasHttpScheme(Strip(url)))
  {
    var s := Strip(url);
    if s == "" then s
    else if !HasHttpScheme(s) then
      var u := "https://" + s;
      assert u[|u| - 1] == s[|s| - 1];
      u
    else s
  }

  /** Normalising a normalised URL changes nothing. */
  lemma NormalizeIdempotent(url: string)
    ensures NormalizeUrl(NormalizeUrl(url)) == NormalizeUrl(url)
  {
    var u := NormalizeUrl(url);
    TrimSurrounded(StrBlanks, "", u, "");
    assert "" + u + "" == u;
  }

  /** The URL list main hands to the pool: `[normalize_url(u) for u in raw]`. */
  function PrepareUrls(lines: seq<string>): (urls: seq<string>)
    ensures |urls| == |KeepLines(lines)|
    ensures forall k :: 0 <= k < |urls| ==>
              HasHttpScheme(urls[k]) && IsStripped(urls[k])
              && (urls[k] == KeepLines(lines)[k] || urls[k] == "https://" + KeepLines(lines)[k])
    ensures forall k :: 0 <= k < |urls| ==>
              (urls[k] == KeepLines(lines)[k] <==> HasHttpScheme(KeepLines(lines)[k]))
  {
    var raw := KeepLines(lines);
    seq(|raw|, k requires 0 <= k < |raw| =>
      TrimSurrounded(StrBlanks, "", raw[k], "");
      assert "" + raw[k] + "" == raw[k];
      NormalizeUrl(raw[k]))
  }

  // ---------------------------------------------------------------------
  // urlparse(url).netloc
  // ---------------------------------------------------------------------

  predicate IsAsciiLetter(c: char) {
    ('a' <= c <= 'z') || ('A' <= c <= 'Z')
  }

  /** urllib's `scheme_chars`. */
  predicate IsSchemeChar(c: char) {
    IsAsciiLetter(c) || ('0' <= c <= '9') || c == '+' || c == '-' || c == '.'
  }

  /** urllib's `_UNSAFE_URL_BYTES_TO_REMOVE`: tab, carriage return, line feed. */
  const Unsafe: set<char> := {'\t', '\r', '\n'}

  /** The characters that end the authority: `_splitnetloc`'s delimiters. */
  const AuthorityEnd: set<char> := {'/', '?', '#'}

  /** `url.lstrip(_WHATWG_C0_CONTROL_OR_SPACE)`: drop leading characters up to U+0020. */
  function LStripC0(s: string): (r: string)
    ensures |r| <= |s|
    ensures r != [] ==> r[0] > ' '
  {
    if s != [] && s[0] <= ' ' then LStripC0(s[1..]) else s
  }

  /** LStripC0 keeps a suffix of s and drops only characters up to U+0020. */
  lemma {:induction false} LStripC0Drops(s: string)
    ensures LStripC0(s) == s[|s| - |LStripC0(s)|..]
    ensures forall k :: 0 <= k < |s| - |LStripC0(s)| ==> s[k] <= ' '
  {
    if s != [] && s[0] <= ' ' {
      LStripC0Drops(s[1..]);
      assert forall k :: 1 <= k < |s| ==> s[1..][k - 1] == s[k];
    }
  }

  /** Every tab, carriage return and line feed removed. */
  function RemoveUnsafe(s: string): (r: string)
    ensures |r| <= |s|
    ensures forall k :: 0 <= k < |r| ==> r[k] !in Unsafe
  {
    if s == [] then []
    else
      var init := RemoveUnsafe(s[..|s| - 1]);
      assert s == s[..|s| - 1] + [s[|s| - 1]];
      if s[|s| - 1] in Unsafe then init else init + [s[|s| - 1]]
  }

  /** One character is dropped exactly when it is a tab or a newline. */
  lemma RemoveUnsafeOfOne(c: char)
    ensures RemoveUnsafe([c]) == if c in Unsafe then [] else [c]
  {
    assert [c][..0] == [];
  }

  /** Text without tabs and newlines is left as it is. */
  lemma {:induction false} RemoveUnsafeKeepsClean(s: string)
    requires forall k :: 0 <= k < |s| ==> s[k] !in Unsafe
    ensures RemoveUnsafe(s) == s
  {
    if s != [] {
      var init := s[..|s| - 1];
      assert forall k :: 0 <= k < |init| ==> init[k] == s[k];
      RemoveUnsafeKeepsClean(init);
      assert s == init + [s[|s| - 1]];
    }
  }

  lemma {:induction false} RemoveUnsafeConcat(a: string, b: string)
    ensures RemoveUnsafe(a + b) == RemoveUnsafe(a) + RemoveUnsafe(b)
  {
    if b != [] {
      var b' := b[..|b| - 1];
      RemoveUnsafeConcat(a, b');
      assert (a + b)[..|a + b| - 1] == a + b';
      assert (a + b)[|a + b| - 1] == b[|b| - 1];
    } else {
      assert a + b == a;
    }
  }

  /** How many scheme characters u starts with. */
  function SchemeRun(u: string): (n: nat)
    ensures n <= |u|
  {
    if u != [] && IsSchemeChar(u[0]) then 1 + SchemeRun(u[1..]) else 0
  }

  /** SchemeRun stops at the first character that is not a scheme character. */
  lemma {:induction false} SchemeRunAt(u: string, i: nat)
    requires i <= |u| && (i < |u| ==> !IsSchemeChar(u[i]))
    ensures SchemeRun(u) == i <==> forall k :: 0 <= k < i ==> IsSchemeChar(u[k])
  {
    if i > 0 && u != [] && IsSchemeChar(u[0]) {
      SchemeRunAt(u[1..], i - 1);
      assert forall k :: 1 <= k < i ==> u[k] == u[1..][k - 1];
      if forall k :: 0 <= k < i - 1 ==> IsSchemeChar(u[1..][k]) {
        assert forall k :: 0 <= k < i ==> IsSchemeChar(u[k]) by {
          forall k | 0 <= k < i ensures IsSchemeChar(u[k]) {
            if k > 0 { assert u[k] == u[1..][k - 1]; }
          }
        }
      } else {
        var k :| 0 <= k < i - 1 && !IsSchemeChar(u[1..][k]);
        assert u[k + 1] == u[1..][k];
      }
    }
  }

  /**
   * Where `urlsplit` finds a scheme: the first ':' when the text before it
   * is non-empty, starts with an ASCII letter and holds only scheme
   * characters. ':' is not a scheme character, so that ':' is the one
   * ending the run of scheme characters.
   */
  function SchemeEnd(u: string): (e: Option<nat>)
    ensures e.Some? ==> 0 < e.value < |u| && u[e.value] == ':'
  {
    var i := SchemeRun(u);
    if 0 < i < |u| && u[i] == ':' && IsAsciiLetter(u[0]) then Some(i) else None
  }

  /** SchemeEnd finds exactly the scheme the CPython scan accepts. */
  lemma SchemeEndIsFirstColon(u: string, i: nat)
    requires i < |u| && u[i] == ':' && forall k :: 0 <= k < i ==> u[k] != ':'
    ensures SchemeEnd(u) == Some(i) <==>
      0 < i && IsAsciiLetter(u[0]) && forall k :: 0 <= k < i ==> IsSchemeChar(u[k])
  {
    SchemeRunAt(u, i);
    if SchemeEnd(u) == Some(i) {
      assert SchemeRun(u) == i;
    }
  }

  /** What `urlsplit` leaves after the scheme and its ':' (all of u when there is no scheme). */
  function AfterScheme(u: string): (rest: string)
    ensures |rest| <= |u|
  {
    match SchemeEnd(u)
    case Some(i) => u[i + 1..]
    case None => u
  }

  lemma AfterSchemeIsSuffix(u: string)
    ensures var rest := AfterScheme(u); rest == u[|u| - |rest|..]
  {
  }

  /**
   * `_splitnetloc` applied when the rest opens with "//": the authority runs
   * to the first '/', '?' or '#'. None stands for the
   * `ValueError("Invalid IPv6 URL")` raised when it holds only one of '['
   * and ']'.
   */
  function SplitNetloc(rest: string): (r: Option<string>)
    ensures r.Some? ==> |r.value| <= |rest|
  {
    if |rest| >= 2 && rest[..2] == "//" then
      var after := rest[2..];
      var n := after[..FirstOf(after, AuthorityEnd)];
      if ('[' in n) != (']' in n) then None else Some(n)
    else Some("")
  }

  /**
   * What `_splitnetloc` returns is a stretch of rest, right after its "//",
   * free of delimiters, and with both brackets or neither.
   */
  lemma SplitNetlocShape(rest: string)
    requires SplitNetloc(rest).Some?
    ensures var n := SplitNetloc(rest).value;
      && (n == "" || (rest[..2] == "//" && n == rest[2..2 + |n|]))
      && (forall k :: 0 <= k < |n| ==> n[k] !in AuthorityEnd)
      && (('[' in n) <==> (']' in n))
  {
    if |rest| >= 2 && rest[..2] == "//" {
      var after := rest[2..];
      var n := after[..FirstOf(after, AuthorityEnd)];
      assert forall k :: 0 <= k < |n| ==> n[k] == after[k];
      assert n == rest[2..2 + |n|];
    }
  }

  /** `urlparse(url).netloc`; None where `urlparse` raises. */
  function Netloc(url: string): (r: Option<string>)
  {
    SplitNetloc(AfterScheme(RemoveUnsafe(LStripC0(url))))
  }

  /**
   * A netloc holds no delimiter, tab or newline, and both brackets or
   * neither: the unbalanced case is the one `urlsplit` rejects.
   */
  lemma NetlocShape(url: string)
    requires Netloc(url).Some?
    ensures var n := Netloc(url).value;
      && (forall k :: 0 <= k < |n| ==> n[k] !in AuthorityEnd && n[k] !in Unsafe)
      && (('[' in n) <==> (']' in n))
  {
    var u := RemoveUnsafe(LStripC0(url));
    var rest := AfterScheme(u);
    SplitNetlocShape(rest);
    var n := Netloc(url).value;
    if n != "" {
      AfterSchemeIsSuffix(u);
      forall k | 0 <= k < |n| ensures n[k] !in Unsafe {
        assert n[k] == rest[2 + k] == u[|u| - |rest| + 2 + k];
      }
    }
  }

  /** A scheme as `urlsplit` recognises it. */
  predicate IsScheme(scheme: string) {
    scheme != [] && IsAsciiLetter(scheme[0])
    && forall k :: 0 <= k < |scheme| ==> IsSchemeChar(scheme[k])
  }

  /** An authority as section 3.2 of RFC 3986 delimits it, with no tab or newline. */
  predicate IsAuthority(a: string) {
    forall k :: 0 <= k < |a| ==> a[k] !in AuthorityEnd && a[k] !in Unsafe
  }

  /**
   * The netloc of `scheme://authority` followed by a path, query or fragment
   * is the authority itself.
   */
  lemma NetlocOfAuthority(scheme: string, authority: string, tail: string)
    requires IsScheme(scheme) && IsAuthority(authority)
    requires tail == [] || tail[0] in AuthorityEnd
    requires ('[' in authority) <==> (']' in authority)
    ensures Netloc(scheme + "://" + authority + tail) == Some(authority)
  {
    var rt := RemoveUnsafe(tail);
    CleanedUrl(scheme, authority, tail);
    AfterSchemeOf(scheme, authority, rt);
    SplitNetlocOf(authority, rt);
  }

  /** The leading-character strip and the tab/newline removal leave only the tail changed. */
  lemma CleanedUrl(scheme: string, authority: string, tail: string)
    requires IsScheme(scheme) && IsAuthority(authority)
    requires tail == [] || tail[0] in AuthorityEnd
    ensures RemoveUnsafe(LStripC0(scheme + "://" + authority + tail))
         == scheme + "://" + authority + RemoveUnsafe(tail)
    ensures RemoveUnsafe(tail) == [] || RemoveUnsafe(tail)[0] in AuthorityEnd
  {
    var head := scheme + "://" + authority;
    var url := head + tail;
    assert url[0] == scheme[0];
    assert LStripC0(url) == url;
    RemoveUnsafeOfHead(scheme, authority);
    RemoveUnsafeConcat(head, tail);
    RemoveUnsafeKeepsDelimiter(tail);
  }

  lemma RemoveUnsafeOfHead(scheme: string, authority: string)
    requires IsScheme(scheme) && IsAuthority(authority)
    ensures RemoveUnsafe(scheme + "://" + authority) == scheme + "://" + authority
  {
    var head := scheme + "://" + authority;
    forall k | 0 <= k < |head| ensures head[k] !in Unsafe {
      if k < |scheme| { assert head[k] == scheme[k]; }
      else if k < |scheme| + 3 { assert head[k] in {':', '/'}; }
      else { assert head[k] == authority[k - |scheme| - 3]; }
    }
    RemoveUnsafeKeepsClean(head);
  }

  lemma RemoveUnsafeKeepsDelimiter(tail: string)
    requires tail == [] || tail[0] in AuthorityEnd
    ensures RemoveUnsafe(tail) == [] || RemoveUnsafe(tail)[0] in AuthorityEnd
  {
    if tail != [] {
      assert tail == [tail[0]] + tail[1..];
      RemoveUnsafeConcat([tail[0]], tail[1..]);
      assert RemoveUnsafe([tail[0]]) == [tail[0]];
    }
  }

  lemma AfterSchemeOf(scheme: string, authority: string, rt: string)
    requires IsScheme(scheme)
    ensures AfterScheme(scheme + "://" + authority + rt) == "//" + authority + rt
  {
    var u := scheme + "://" + authority + rt;
    assert forall k :: 0 <= k < |scheme| ==> u[k] == scheme[k];
    assert u[|scheme|] == ':';
    SchemeRunAt(u, |scheme|);
    assert SchemeEnd(u) == Some(|scheme|);
    assert u[|scheme| + 1..] == "//" + authority + rt;
  }

  lemma SplitNetlocOf(authority: string, rt: string)
    requires IsAuthority(authority)
    requires rt == [] || rt[0] in AuthorityEnd
    requires ('[' in authority) <==> (']' in authority)
    ensures SplitNetloc("//" + authority + rt) == Some(authority)
  {
    var rest := "//" + authority + rt;
    assert rest[2..] == authority + rt;
    FirstOfAfter(authority, rt, AuthorityEnd);
    assert (authority + rt)[..|authority|] == authority;
  }

  // ---------------------------------------------------------------------
  // get_domain
  // ---------------------------------------------------------------------

  /** `domain.split(':', 1)[0]`: the text before the first ':'. */
  function DropPort(n: string): (h: string)
    ensures h <= n && ':' !in h
    ensures |h| < |n| ==> n[|h|] == ':'
  {
    var i := FirstOf(n, {':'});
    assert forall k :: 0 <= k < i ==> n[..i][k] == n[k];
    n[..i]
  }

  /** `domain[4:]` when the domain starts with "www.": one prefix removed, no more. */
  function DropWww(h: string): (d: string)
    ensures "www." <= h ==> h == "www." + d
    ensures !("www." <= h) ==> d == h
  {
    if "www." <= h then h[4..] else h
  }

  /** d occurs in n at offset i. */
  predicate OccursAt(d: string, n: string, i: int) {
    0 <= i <= |n| - |d| && n[i..i + |d|] == d
  }

  /** `get_domain`; None where `urlparse` raises. */
  function GetDomain(url: string): (d: Option<string>)
    ensures d.Some? <==> Netloc(url).Some?
  {
    match Netloc(url)
    case None => None
    case Some(n) => Some(DropWww(DropPort(n)))
  }

  /** The domain is a stretch of the netloc and holds no ':'. */
  lemma DomainInNetloc(url: string)
    requires GetDomain(url).Some?
    ensures var d, n := GetDomain(url).value, Netloc(url).value;
      && ':' !in d
      && exists i :: OccursAt(d, n, i)
  {
    DomainOfNetloc(Netloc(url).value);
  }

  lemma DomainOfNetloc(n: string)
    ensures var d := DropWww(DropPort(n));
      && ':' !in d
      && OccursAt(d, n, |DropPort(n)| - |d|)
  {
    var h := DropPort(n);
    var d := DropWww(h);
    assert forall k :: 0 <= k < |d| ==> d[k] == h[k + |h| - |d|];
  }

  /**
   * For `scheme://authority…` the domain is the authority up to its first
   * ':' (userinfo included), with one leading "www." removed.
   */
  lemma DomainOfAuthority(scheme: string, authority: string, tail: string)
    requires IsScheme(scheme) && IsAuthority(authority)
    requires tail == [] || tail[0] in AuthorityEnd
    requires ('[' in authority) <==> (']' in authority)
    ensures GetDomain(scheme + "://" + authority + tail) == Some(DropWww(DropPort(authority)))
  {
    NetlocOfAuthority(scheme, authority, tail);
  }

  /** Only one "www." goes: "www.www.x" becomes "www.x". */
  lemma DomainDropsOneWww(x: string)
    ensures DropWww("www." + "www." + x) == "www." + x
  {
  }

  /**
   * Userinfo is not removed: for an authority "user:password@host" the
   * domain is the user name.
   */
  lemma DomainKeepsUserinfo(user: string, rest: string)
    requires ':' !in user && !("www." <= user)
    ensures DropWww(DropPort(user + ":" + rest)) == user
  {
    var n := user + ":" + rest;
    assert forall k :: 0 <= k < |user| ==> n[k] == user[k];
    FirstOfAt(n, {':'}, |user|);
    assert n[..|user|] == user;
  }
}
