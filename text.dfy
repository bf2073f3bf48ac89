/**
 * Python string primitives the script relies on: `str.strip()` without
 * arguments, the blank-skipping of `int()`, and searching for the first of
 * a set of characters.
 */
module Text {

  /** Python's `str.isspace()`: the characters `str.strip()` removes. */
  predicate IsSpace(c: char) {
    var n := c as int;
    (0x09 <= n <= 0x0D) || (0x1C <= n <= 0x20) || n == 0x85 || n == 0xA0 || n == 0x1680
    || (0x2000 <= n <= 0x200A) || n == 0x2028 || n == 0x2029 || n == 0x202F
    || n == 0x205F || n == 0x3000
  }

  /**
   * The two sets of blanks the script trims: the whitespace of
   * `str.strip()`, and the whitespace `int()` skips around a number. The
   * latter lacks the separators U+001C..U+001F: `int()` maps non-ASCII
   * whitespace to a space and then skips only the C-locale spaces.
   */
  datatype Blanks = StrBlanks | IntBlanks

  predicate IsBlank(b: Blanks, c: char) {
    IsSpace(c) && (b.IntBlanks? ==> !(0x1C <= c as int <= 0x1F))
  }

  predicate AllBlank(b: Blanks, s: string) {
    forall k :: 0 <= k < |s| ==> IsBlank(b, s[k])
  }

  /** Neither begins nor ends with a blank. */
  predicate IsTrimmed(b: Blanks, s: string) {
    s == [] || (!IsBlank(b, s[0]) && !IsBlank(b, s[|s| - 1]))
  }

  /** Length of the leading run of blanks. */
  function LeadingBlanks(b: Blanks, s: string): (i: nat)
    ensures i <= |s|
    ensures AllBlank(b, s[..i])
    ensures i < |s| ==> !IsBlank(b, s[i])
  {
    if s == [] || !IsBlank(b, s[0]) then 0
    else
      var i := 1 + LeadingBlanks(b, s[1..]);
      assert s[..i] == [s[0]] + s[1..][..i - 1];
      i
  }

  /** Index at which the trailing run of blanks begins. */
  function TrailingBlanks(b: Blanks, s: string): (j: nat)
    ensures j <= |s|
    ensures AllBlank(b, s[j..])
    ensures j > 0 ==> !IsBlank(b, s[j - 1])
  {
    if s == [] || !IsBlank(b, s[|s| - 1]) then |s|
    else
      var j := TrailingBlanks(b, s[..|s| - 1]);
      assert s[j..] == s[..|s| - 1][j..] + [s[|s| - 1]];
      j
  }

  /** s without its leading and trailing blanks. */
  function Trim(b: Blanks, s: string): (r: string)
    ensures IsTrimmed(b, r)
    ensures |r| <= |s|
    ensures r == "" <==> AllBlank(b, s)
  {
    var i := LeadingBlanks(b, s);
    var j := TrailingBlanks(b, s);
    if i < j then s[i..j]
    else
      assert forall k :: 0 <= k < i ==> s[..i][k] == s[k];
      assert forall k :: j <= k < |s| ==> s[j..][k - j] == s[k];
      ""
  }

  /** Python's `s.strip()`. */
  function Strip(s: string): string {
    Trim(StrBlanks, s)
  }

  predicate AllSpace(s: string) {
    AllBlank(StrBlanks, s)
  }

  predicate IsStripped(s: string) {
    IsTrimmed(StrBlanks, s)
  }

  /**
   * Trim removes exactly the surrounding blanks: for any split of a string
   * into blanks, a trimmed middle and blanks, it returns that middle.
   */
  lemma TrimSurrounded(b: Blanks, p: string, t: string, q: string)
    requires AllBlank(b, p) && AllBlank(b, q) && IsTrimmed(b, t)
    ensures Trim(b, p + t + q) == t
  {
    var s := p + t + q;
    if t == [] {
      assert AllBlank(b, s) by {
        forall k | 0 <= k < |s| ensures IsBlank(b, s[k]) {
          if k < |p| { assert s[k] == p[k]; } else { assert s[k] == q[k - |p|]; }
        }
      }
    } else {
      assert s == p + (t + q);
      LeadingBlanksOf(b, p, t + q);
      TrailingBlanksOf(b, p + t, q);
      assert s[|p|..|p| + |t|] == t;
    }
  }

  /** The leading blanks of p + r are p when r does not start with a blank. */
  lemma LeadingBlanksOf(b: Blanks, p: string, r: string)
    requires AllBlank(b, p) && r != [] && !IsBlank(b, r[0])
    ensures LeadingBlanks(b, p + r) == |p|
  {
    var s := p + r;
    var i := LeadingBlanks(b, s);
    assert forall k :: 0 <= k < i ==> s[..i][k] == s[k];
    assert forall k :: 0 <= k < |p| ==> s[k] == p[k];
    assert s[|p|] == r[0];
  }

  /** The trailing blanks of r + q start at |r| when r does not end with a blank. */
  lemma TrailingBlanksOf(b: Blanks, r: string, q: string)
    requires AllBlank(b, q) && r != [] && !IsBlank(b, r[|r| - 1])
    ensures TrailingBlanks(b, r + q) == |r|
  {
    var s := r + q;
    var j := TrailingBlanks(b, s);
    assert forall k :: j <= k < |s| ==> s[j..][k - j] == s[k];
    assert forall k :: |r| <= k < |s| ==> s[k] == q[k - |r|];
    assert s[|r| - 1] == r[|r| - 1];
  }

  /** Every string is its trim surrounded by blanks. */
  lemma TrimSplits(b: Blanks, s: string) returns (p: string, q: string)
    ensures AllBlank(b, p) && AllBlank(b, q)
    ensures s == p + Trim(b, s) + q
  {
    var i := LeadingBlanks(b, s);
    var j := TrailingBlanks(b, s);
    if i < j {
      p, q := s[..i], s[j..];
      assert s == s[..i] + s[i..j] + s[j..];
    } else {
      p, q := s, "";
    }
  }

  /** Blanks added around a string do not change its trim. */
  lemma TrimIgnoresSurroundingBlanks(b: Blanks, p: string, s: string, q: string)
    requires AllBlank(b, p) && AllBlank(b, q)
    ensures Trim(b, p + s + q) == Trim(b, s)
  {
    var p', q' := TrimSplits(b, s);
    Regroup(p, p', Trim(b, s), q', q);
    BlankConcat(b, p, p');
    BlankConcat(b, q', q);
    TrimSurrounded(b, p + p', Trim(b, s), q' + q);
  }

  lemma Regroup(p: string, p': string, t: string, q': string, q: string)
    ensures p + (p' + t + q') + q == (p + p') + t + (q' + q)
  {
  }

  lemma BlankConcat(b: Blanks, x: string, y: string)
    requires AllBlank(b, x) && AllBlank(b, y)
    ensures AllBlank(b, x + y)
  {
    assert forall k :: 0 <= k < |x + y| ==> (x + y)[k] == if k < |x| then x[k] else y[k - |x|];
  }

  /** Trimming a trimmed string changes nothing. */
  lemma TrimIdempotent(b: Blanks, s: string)
    ensures Trim(b, Trim(b, s)) == Trim(b, s)
  {
    TrimSurrounded(b, "", Trim(b, s), "");
    assert "" + Trim(b, s) + "" == Trim(b, s);
  }

  /**
   * Position of the first character of s that belongs to cs, or |s| when
   * there is none (Python's `str.find` with |s| in place of -1).
   */
  function FirstOf(s: string, cs: set<char>): (i: nat)
    ensures i <= |s|
    ensures forall k :: 0 <= k < i ==> s[k] !in cs
    ensures i < |s| ==> s[i] in cs
  {
    if s == [] || s[0] in cs then 0 else 1 + FirstOf(s[1..], cs)
  }

  /** FirstOf on a concatenation whose first part holds none of cs. */
  lemma FirstOfAfter(a: string, b: string, cs: set<char>)
    requires forall k :: 0 <= k < |a| ==> a[k] !in cs
    requires b == [] || b[0] in cs
    ensures FirstOf(a + b, cs) == |a|
  {
    var s := a + b;
    assert forall k :: 0 <= k < |a| ==> s[k] == a[k];
    assert b != [] ==> s[|a|] == b[0];
  }

  /** FirstOf is the first position holding a character of cs. */
  lemma FirstOfAt(s: string, cs: set<char>, i: nat)
    requires i < |s| && s[i] in cs
    requires forall k :: 0 <= k < i ==> s[k] !in cs
    ensures FirstOf(s, cs) == i
  {
  }
}
