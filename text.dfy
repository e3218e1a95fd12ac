/**
 * The string operations the system relies on: JavaScript's `String.prototype.trim`,
 * lower-casing (restricted to ASCII letters), and `String.prototype.replace` with a
 * string pattern, which replaces only the FIRST occurrence.
 */
module Text {

  /** The characters `trim` removes: ECMAScript WhiteSpace and LineTerminator. */
  predicate IsSpace(c: char) {
    c == ' ' || c == '\t' || c == '\n' || c == '\r' || c == '\U{B}' || c == '\U{C}'
    || c == '\U{A0}' || c == '\U{FEFF}' || c == '\U{1680}'
    || ('\U{2000}' <= c <= '\U{200A}')
    || c == '\U{2028}' || c == '\U{2029}' || c == '\U{202F}' || c == '\U{205F}' || c == '\U{3000}'
  }

  /** Every white-space character lies below U+FFFF. */
  lemma AstralIsNotSpace(c: char)
    requires c as int > 0xFFFF
    ensures !IsSpace(c)
  {
  }

  /** Number of leading space characters of `s`. */
  function LeadingSpaces(s: string): (n: nat)
    ensures n <= |s|
    ensures forall k :: 0 <= k < n ==> IsSpace(s[k])
    ensures n < |s| ==> !IsSpace(s[n])
  {
    if s == [] || !IsSpace(s[0]) then 0 else 1 + LeadingSpaces(s[1..])
  }

  /** Number of trailing space characters of `s`. */
  function TrailingSpaces(s: string): (n: nat)
    ensures n <= |s|
    ensures forall k :: |s| - n <= k < |s| ==> IsSpace(s[k])
    ensures n < |s| ==> !IsSpace(s[|s| - 1 - n])
  {
    if s == [] || !IsSpace(s[|s| - 1]) then 0 else 1 + TrailingSpaces(s[..|s| - 1])
  }

  /** Only white space lies before index `i` and from index `j` on: cutting both off leaves `s[i..j]`. */
  predicate CutAt(s: string, i: nat, j: nat) {
    i <= j <= |s|
    && (forall k :: 0 <= k < i ==> IsSpace(s[k]))
    && (forall k :: j <= k < |s| ==> IsSpace(s[k]))
  }

  /** `s` with leading and trailing white space removed. */
  function Trim(s: string): (r: string)
    ensures |r| <= |s|
    ensures r != [] ==> !IsSpace(r[0]) && !IsSpace(r[|r| - 1])
    ensures r == [] <==> forall k :: 0 <= k < |s| ==> IsSpace(s[k])
    ensures exists i: nat, j: nat :: CutAt(s, i, j) && r == s[i..j]
  {
    var lead := LeadingSpaces(s);
    if lead == |s| then
      assert CutAt(s, |s|, |s|) && s[|s|..|s|] == [];
      []
    else
      var trail := TrailingSpaces(s);
      assert !IsSpace(s[lead]);
      assert lead < |s| - trail;
      assert CutAt(s, lead, |s| - trail);
      s[lead..|s| - trail]
  }

  /** A string with no white space at either end is its own trim. */
  lemma {:induction false} TrimOfTrimmed(s: string)
    requires s != [] ==> !IsSpace(s[0]) && !IsSpace(s[|s| - 1])
    ensures Trim(s) == s
  {
    assert LeadingSpaces(s) == 0;
    assert s[0..] == s;
    assert TrailingSpaces(s) == 0;
  }

  /** Trimming twice is trimming once. */
  lemma TrimIdempotent(s: string)
    ensures Trim(Trim(s)) == Trim(s)
  {
    TrimOfTrimmed(Trim(s));
  }

  /** A word padded with white space on either side trims back to the word. */
  lemma TrimPadded(p: string, w: string, q: string)
    requires forall k :: 0 <= k < |p| ==> IsSpace(p[k])
    requires forall k :: 0 <= k < |q| ==> IsSpace(q[k])
    requires w != [] && !IsSpace(w[0]) && !IsSpace(w[|w| - 1])
    ensures Trim(p + w + q) == w
  {
    var s := p + w + q;
    var r := Trim(s);
    assert s[|p|] == w[0];
    var i: nat, j: nat :| CutAt(s, i, j) && r == s[i..j];
    assert s[|p| + |w| - 1] == w[|w| - 1];
    assert i == |p| && j == |p| + |w|;
    assert s[|p|..|p| + |w|] == w;
  }

  /** ASCII lower-casing of one character. */
  function LowerChar(c: char): (d: char)
    ensures 'A' <= c <= 'Z' ==> d as int == c as int + 32
    ensures !('A' <= c <= 'Z') ==> d == c
  {
    if 'A' <= c <= 'Z' then (c as int + 32) as char else c
  }

  /** `s` with every ASCII capital replaced by its small letter. */
  function Lower(s: string): (r: string)
    ensures |r| == |s|
    ensures forall k :: 0 <= k < |s| ==> r[k] == LowerChar(s[k])
  {
    seq(|s|, k requires 0 <= k < |s| => LowerChar(s[k]))
  }

  /** Lower-casing leaves no capital behind: it is idempotent. */
  lemma LowerIdempotent(s: string)
    ensures Lower(Lower(s)) == Lower(s)
  {
  }

  /** White space holds no capital letter. */
  lemma SpacesAreNotCapitals(p: string)
    requires forall k :: 0 <= k < |p| ==> IsSpace(p[k])
    ensures forall k :: 0 <= k < |p| ==> !('A' <= p[k] <= 'Z')
  {
  }

  /** A string without capitals is its own lower-casing. */
  lemma LowerWithoutCapitals(s: string)
    requires forall k :: 0 <= k < |s| ==> !('A' <= s[k] <= 'Z')
    ensures Lower(s) == s
  {
    var l := Lower(s);
    assert forall k :: 0 <= k < |s| ==> l[k] == s[k];
  }

  /** Lower-casing leaves a word without capitals, padded with white space, as it is. */
  lemma LowerPadded(p: string, w: string, q: string)
    requires forall k :: 0 <= k < |p| ==> IsSpace(p[k])
    requires forall k :: 0 <= k < |q| ==> IsSpace(q[k])
    requires forall k :: 0 <= k < |w| ==> !('A' <= w[k] <= 'Z')
    ensures Lower(p + w + q) == p + w + q
  {
    SpacesAreNotCapitals(p);
    SpacesAreNotCapitals(q);
    var s := p + w + q;
    forall k | 0 <= k < |s| ensures !('A' <= s[k] <= 'Z') {
      if k < |p| { assert s[k] == p[k]; }
      else if k < |p| + |w| { assert s[k] == w[k - |p|]; }
      else { assert s[k] == q[k - |p| - |w|]; }
    }
    LowerWithoutCapitals(s);
  }

  /** The normal form of an e-mail address as the user schema stores it: trimmed, then lower-cased. */
  function Normalize(s: string): (r: string)
    ensures r == [] <==> forall k :: 0 <= k < |s| ==> IsSpace(s[k])
    ensures r != [] ==> !IsSpace(r[0]) && !IsSpace(r[|r| - 1])
    ensures forall k :: 0 <= k < |r| ==> !('A' <= r[k] <= 'Z')
    ensures exists i: nat, j: nat :: CutAt(s, i, j) && r == Lower(s[i..j])
  {
    var t := Trim(s);
    var r := Lower(t);
    LowerKeepsSpaces(t);
    r
  }

  /** Lower-casing keeps white space where it was and puts none anywhere else. */
  lemma LowerKeepsSpaces(s: string)
    ensures forall k :: 0 <= k < |s| ==> (IsSpace(Lower(s)[k]) <==> IsSpace(s[k]))
  {
    forall k | 0 <= k < |s| ensures IsSpace(Lower(s)[k]) <==> IsSpace(s[k]) {
      LowerCharKeepsSpace(s[k]);
    }
  }

  /** Lower-casing never turns a character into white space or white space into anything else. */
  lemma LowerCharKeepsSpace(c: char)
    ensures IsSpace(LowerChar(c)) <==> IsSpace(c)
  {
    if 'A' <= c <= 'Z' {
      assert 'a' <= LowerChar(c) <= 'z';
    }
  }

  /** Normalizing an already normalized address changes nothing. */
  lemma NormalizeIdempotent(s: string)
    ensures Normalize(Normalize(s)) == Normalize(s)
  {
    var n := Normalize(s);
    TrimOfTrimmed(n);
    LowerWithoutCapitals(n);
  }

  /** `pat` occurs in `s` starting at index `i`. */
  predicate OccursAt(s: string, pat: string, i: nat) {
    i + |pat| <= |s| && s[i..i + |pat|] == pat
  }

  /**
   * `s.indexOf(pat, from)`: the least index at or after `from` where `pat` occurs,
   * or -1 when there is none.
   */
  function IndexOf(s: string, pat: string, from: nat): (r: int)
    requires from <= |s|
    ensures r == -1 || (from <= r && OccursAt(s, pat, r))
    ensures r == -1 ==> forall j: nat :: from <= j ==> !OccursAt(s, pat, j)
    ensures r != -1 ==> forall j: nat :: from <= j < r ==> !OccursAt(s, pat, j)
    decreases |s| - from
  {
    if from + |pat| > |s| then -1
    else if s[from..from + |pat|] == pat then from
    else IndexOf(s, pat, from + 1)
  }

  /**
   * `s.replace(pat, rep)` for a string pattern: the first occurrence of `pat`
   * is replaced by `rep`; without an occurrence `s` is returned unchanged.
   */
  function ReplaceFirst(s: string, pat: string, rep: string): (r: string)
    ensures (forall i: nat :: !OccursAt(s, pat, i)) ==> r == s
    ensures forall i: nat :: OccursAt(s, pat, i) && (forall j: nat :: j < i ==> !OccursAt(s, pat, j))
              ==> r == s[..i] + rep + s[i + |pat|..]
  {
    var i := IndexOf(s, pat, 0);
    if i == -1 then s else s[..i] + rep + s[i + |pat|..]
  }

  /**
   * The length JavaScript reports for `s`: its count of UTF-16 code units,
   * where a character above U+FFFF takes two.
   */
  function Utf16Length(s: string): (r: nat)
    ensures |s| <= r <= 2 * |s|
  {
    if s == [] then 0 else (if s[0] as int > 0xFFFF then 2 else 1) + Utf16Length(s[1..])
  }

  /** The code-unit count is the character count exactly when no character lies above U+FFFF. */
  lemma {:induction false} Utf16LengthBasic(s: string)
    ensures Utf16Length(s) == |s| <==> forall k :: 0 <= k < |s| ==> s[k] as int <= 0xFFFF
  {
    if s != [] {
      Utf16LengthBasic(s[1..]);
      assert forall k :: 0 < k < |s| ==> s[k] == s[1..][k - 1];
    }
  }

  /** The code-unit count is twice the character count exactly when every character lies above U+FFFF. */
  lemma {:induction false} Utf16LengthAstral(s: string)
    ensures Utf16Length(s) == 2 * |s| <==> forall k :: 0 <= k < |s| ==> s[k] as int > 0xFFFF
  {
    if s != [] {
      Utf16LengthAstral(s[1..]);
      assert forall k :: 0 < k < |s| ==> s[k] == s[1..][k - 1];
    }
  }
}
