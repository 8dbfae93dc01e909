/**
 * The two string operations the dashboard applies to tickers: Python's
 * `str.strip()` without arguments and `str.upper()`.
 */
module Text {

  /**
   * The characters for which Python's `str.isspace()` holds, which are the
   * characters `str.strip()` removes: the ASCII controls 9-13 and 28-31, the
   * space, and the Unicode separators and spaces.
   */
  predicate IsSpace(c: char) {
    || c == ' '
    || '\t' <= c <= '\r'
    || '\U{1C}' <= c <= '\U{1F}'
    || c == '\U{85}'
    || c == '\U{A0}'
    || c == '\U{1680}'
    || '\U{2000}' <= c <= '\U{200A}'
    || c == '\U{2028}'
    || c == '\U{2029}'
    || c == '\U{202F}'
    || c == '\U{205F}'
    || c == '\U{3000}'
  }

  predicate AllSpace(s: string) {
    forall i :: 0 <= i < |s| ==> IsSpace(s[i])
  }

  /** True of a string with no whitespace at either end (the empty string included). */
  predicate Trimmed(s: string) {
    s == [] || (!IsSpace(s[0]) && !IsSpace(s[|s| - 1]))
  }

  /** How many whitespace characters `s` starts with. */
  function LeadingSpace(s: string): (k: nat)
    ensures k <= |s| && AllSpace(s[..k])
    ensures k == |s| || !IsSpace(s[k])
  {
    if s != [] && IsSpace(s[0]) then
      var k := LeadingSpace(s[1..]);
      assert s[..k + 1] == [s[0]] + s[1..][..k];
      AllSpaceJoin([s[0]], s[1..][..k]);
      k + 1
    else 0
  }

  /** How many whitespace characters `s` ends with. */
  function TrailingSpace(s: string): (k: nat)
    ensures k <= |s| && AllSpace(s[|s| - k..])
    ensures k == |s| || !IsSpace(s[|s| - k - 1])
  {
    if s != [] && IsSpace(s[|s| - 1]) then
      var front := s[..|s| - 1];
      var k := TrailingSpace(front);
      assert s[|s| - (k + 1)..] == front[|front| - k..] + [s[|s| - 1]];
      AllSpaceJoin(front[|front| - k..], [s[|s| - 1]]);
      k + 1
    else 0
  }

  /** `s` without its leading whitespace: a suffix of `s`. */
  function TrimStart(s: string): (r: string)
    ensures |r| <= |s| && r == s[|s| - |r|..]
    ensures AllSpace(s[..|s| - |r|])
    ensures r == [] || !IsSpace(r[0])
  {
    s[LeadingSpace(s)..]
  }

  /** `s` without its trailing whitespace: a prefix of `s`. */
  function TrimEnd(s: string): (r: string)
    ensures |r| <= |s| && r == s[..|r|]
    ensures AllSpace(s[|r|..])
    ensures r == [] || !IsSpace(r[|r| - 1])
  {
    s[..|s| - TrailingSpace(s)]
  }

  /** `r` is the piece of `s` starting at `i`, and only whitespace lies around it. */
  predicate PieceAt(s: string, r: string, i: int) {
    0 <= i <= i + |r| <= |s| && r == s[i..i + |r|] && AllSpace(s[..i]) && AllSpace(s[i + |r|..])
  }

  /**
   * Python's `s.strip()`: the part of `s` that remains once the whitespace at
   * both ends is removed. It is a contiguous piece of `s`, everything cut off
   * is whitespace, and it neither starts nor ends with whitespace.
   */
  function Strip(s: string): (r: string)
    ensures Trimmed(r)
    ensures exists i :: PieceAt(s, r, i)
  {
    TrimsArePiece(s);
    TrimEnd(TrimStart(s))
  }

  /** Removing the leading and then the trailing whitespace leaves a trimmed piece of `s`. */
  lemma TrimsArePiece(s: string)
    ensures Trimmed(TrimEnd(TrimStart(s)))
    ensures PieceAt(s, TrimEnd(TrimStart(s)), |s| - |TrimStart(s)|)
  {
    var t := TrimStart(s);
    var r := TrimEnd(t);
    PieceOfPrefix(s, t, r, |s| - |t|);
    if r != [] {
      assert r[0] == t[0];
    }
  }

  /** A prefix `r` of the suffix `t` of `s` at `i` is the piece of `s` at `i`, given whitespace around it. */
  lemma PieceOfPrefix(s: string, t: string, r: string, i: int)
    requires 0 <= i <= |s| && t == s[i..] && |r| <= |t| && r == t[..|r|]
    requires AllSpace(s[..i]) && AllSpace(t[|r|..])
    ensures PieceAt(s, r, i)
  {
    assert r == s[i..i + |r|];
    assert s[i + |r|..] == t[|r|..];
  }

  lemma AllSpaceJoin(a: string, b: string)
    requires AllSpace(a) && AllSpace(b)
    ensures AllSpace(a + b)
  {
    forall k | 0 <= k < |a + b| ensures IsSpace((a + b)[k]) {
      if k < |a| { assert (a + b)[k] == a[k]; } else { assert (a + b)[k] == b[k - |a|]; }
    }
  }

  /** `str.upper()` on one character, for the ASCII letters. */
  function UpperChar(c: char): (d: char)
    ensures 'a' <= c <= 'z' ==> d as int == c as int - 32
    ensures !('a' <= c <= 'z') ==> d == c
  {
    if 'a' <= c <= 'z' then (c as int - 32) as char else c
  }

  predicate HasLowercase(s: string) {
    exists i :: 0 <= i < |s| && 'a' <= s[i] <= 'z'
  }

  /**
   * Python's `s.upper()` for ASCII: the same length, no lower-case ASCII letter
   * left, and every other character, whitespace included, kept where it was.
   */
  function Upper(s: string): (r: string)
    ensures |r| == |s|
    ensures !HasLowercase(r)
    ensures forall i :: 0 <= i < |s| && !('a' <= s[i] <= 'z') ==> r[i] == s[i]
    ensures forall i :: 0 <= i < |s| && 'a' <= s[i] <= 'z' ==> r[i] as int == s[i] as int - 32
  {
    seq(|s|, i requires 0 <= i < |s| => UpperChar(s[i]))
  }

  /** The stripped string is empty exactly when the input is blank. */
  lemma StripBlank(s: string)
    ensures Strip(s) == [] <==> AllSpace(s)
  {
    var r := Strip(s);
    var i :| PieceAt(s, r, i);
    if r == [] {
      forall k | 0 <= k < |s| ensures IsSpace(s[k]) {
        if k < i { assert s[k] == s[..i][k]; } else { assert s[k] == s[i..][k - i]; }
      }
    } else {
      assert s[i] == r[0];
    }
  }

  /** Removing leading whitespace stops at the first character that is not whitespace. */
  lemma TrimStartAt(s: string, i: nat)
    requires i < |s| && AllSpace(s[..i]) && !IsSpace(s[i])
    ensures TrimStart(s) == s[i..]
  {
    var k := LeadingSpace(s);
    if i < k {
      assert false;
    } else if k < i {
      assert false;
    }
  }

  /** Removing trailing whitespace stops after the last character that is not whitespace. */
  lemma TrimEndAt(s: string, j: nat)
    requires 0 < j <= |s| && AllSpace(s[j..]) && !IsSpace(s[j - 1])
    ensures TrimEnd(s) == s[..j]
  {
    var m := |s| - TrailingSpace(s);
    if j - 1 >= m {
      assert false;
    } else if m - 1 >= j {
      assert false;
    }
  }

  /**
   * The contract of Strip determines its result: any piece of `s` that has no
   * whitespace at its ends and only whitespace around it is `Strip(s)`.
   */
  lemma StripUnique(s: string, t: string, i: int)
    requires PieceAt(s, t, i) && Trimmed(t)
    ensures Strip(s) == t
  {
    if t == [] {
      assert s == s[..i] + s[i..];
      AllSpaceJoin(s[..i], s[i..]);
      StripBlank(s);
    } else {
      assert s[i] == t[0];
      TrimStartAt(s, i);
      var u := s[i..];
      assert u[..|t|] == t;
      assert u[|t|..] == s[i + |t|..];
      assert u[|t| - 1] == t[|t| - 1];
      TrimEndAt(u, |t|);
    }
  }

  /** A string with no whitespace at its ends is its own strip. */
  lemma StripTrimmed(s: string)
    requires Trimmed(s)
    ensures Strip(s) == s
  {
    assert s[0..|s|] == s && s[..0] == [] && s[|s|..] == [];
    StripUnique(s, s, 0);
  }

  /** Stripping a second time changes nothing. */
  lemma StripIdempotent(s: string)
    ensures Strip(Strip(s)) == Strip(s)
  {
    StripTrimmed(Strip(s));
  }

  /** Upper-casing a second time changes nothing. */
  lemma UpperIdempotent(s: string)
    ensures Upper(Upper(s)) == Upper(s)
  {
  }

  /** A string with a lower-case letter is changed by upper-casing. */
  lemma UpperChanges(s: string)
    requires HasLowercase(s)
    ensures Upper(s) != s
  {
  }

  /** Upper-casing keeps whitespace where it is, so it commutes with Strip. */
  lemma StripUpper(s: string)
    ensures Strip(Upper(s)) == Upper(Strip(s))
  {
    var r := Strip(s);
    var i :| PieceAt(s, r, i);
    UpperPiece(s, r, i);
    UpperTrimmed(r);
    StripUnique(Upper(s), Upper(r), i);
  }

  /** A stripped, upper-cased string has no surrounding whitespace. */
  lemma StripUpperTrimmed(t: string)
    ensures Trimmed(Upper(Strip(t)))
  {
    UpperTrimmed(Strip(t));
  }

  /** Stripping and upper-casing a second time changes nothing. */
  lemma StripUpperIdempotent(t: string)
    ensures Upper(Strip(Upper(Strip(t)))) == Upper(Strip(t))
  {
    var s := Strip(t);
    StripUpper(s);
    StripIdempotent(t);
    UpperIdempotent(s);
  }

  lemma UpperTrimmed(r: string)
    requires Trimmed(r)
    ensures Trimmed(Upper(r))
  {
    if r != [] {
      UpperCharSpace(r[0]);
      UpperCharSpace(r[|r| - 1]);
    }
  }

  lemma UpperPiece(s: string, r: string, i: int)
    requires PieceAt(s, r, i)
    ensures PieceAt(Upper(s), Upper(r), i)
  {
    var u := Upper(s);
    UpperSlice(s, 0, i);
    UpperSlice(s, i, i + |r|);
    UpperSlice(s, i + |r|, |s|);
    UpperKeepsSpace(s[..i]);
    UpperKeepsSpace(s[i + |r|..]);
    assert s[..i] == s[0..i] && u[..i] == u[0..i];
    assert s[i + |r|..] == s[i + |r|..|s|] && u[i + |r|..] == u[i + |r|..|u|];
  }

  lemma UpperCharSpace(c: char)
    ensures IsSpace(UpperChar(c)) == IsSpace(c)
  {
  }

  lemma UpperSlice(s: string, i: int, j: int)
    requires 0 <= i <= j <= |s|
    ensures Upper(s)[i..j] == Upper(s[i..j])
  {
  }

  lemma UpperKeepsSpace(s: string)
    requires AllSpace(s)
    ensures Upper(s) == s
  {
  }
}
