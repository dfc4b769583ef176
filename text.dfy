/**
 * The handful of Python string operations the pipeline relies on, written as
 * functions over `seq<char>`: `str.split("\n")`, `str.split(sep, 1)`,
 * `str.replace(pat, "")`, `str.strip()`, `str.lower()`, `str.isalnum()`,
 * `str.endswith`, `sep in s` and `str(n)` for a natural number.
 *
 * Python's `strip`, `lower` and `isalnum` are Unicode-aware; here they are
 * their ASCII restrictions.
 */
module Text {
  import opened Wrappers

  // ---------------------------------------------------------------------------
  // Character classes (ASCII)
  // ---------------------------------------------------------------------------

  /** The characters Python's `str.strip()` removes, restricted to ASCII:
      space, \t \n \x0b \x0c \r and the separators \x1c .. \x1f. */
  predicate IsSpace(c: char) {
    c == ' ' || (9 <= c as int <= 13) || (28 <= c as int <= 31)
  }

  predicate IsUpper(c: char) { 'A' <= c <= 'Z' }

  predicate IsDigit(c: char) { '0' <= c <= '9' }

  /** `str.isalnum()` on one ASCII character. */
  predicate IsAlnum(c: char) { IsUpper(c) || ('a' <= c <= 'z') || IsDigit(c) }

  function LowerChar(c: char): (r: char)
    ensures !IsUpper(r)
    ensures !IsUpper(c) ==> r == c
  {
    if IsUpper(c) then (c as int + 32) as char else c
  }

  // ---------------------------------------------------------------------------
  // lower()
  // ---------------------------------------------------------------------------

  /** `s.lower()`: every upper-case letter replaced by its lower-case form. */
  function Lower(s: string): (r: string)
    ensures |r| == |s|
    ensures forall i :: 0 <= i < |s| ==> r[i] == LowerChar(s[i])
  {
    if s == [] then [] else [LowerChar(s[0])] + Lower(s[1..])
  }

  predicate NoUpper(s: string) { forall i :: 0 <= i < |s| ==> !IsUpper(s[i]) }

  /** A string without upper-case letters is its own lower-case form, so
      `lower` is idempotent. */
  lemma LowerOfLower(s: string)
    requires NoUpper(s)
    ensures Lower(s) == s
  {
  }

  // ---------------------------------------------------------------------------
  // strip()
  // ---------------------------------------------------------------------------

  /** The leading-whitespace half of `strip()`: the longest suffix of `s`
      that does not start with whitespace. */
  function StripLeft(s: string): (r: string)
    ensures |r| <= |s| && r == s[|s| - |r|..]
    ensures r == [] || !IsSpace(r[0])
    ensures forall i :: 0 <= i < |s| - |r| ==> IsSpace(s[i])
  {
    if s != [] && IsSpace(s[0]) then StripLeft(s[1..]) else s
  }

  /** The trailing-whitespace half of `strip()`: the longest prefix of `s`
      that does not end with whitespace. */
  function StripRight(s: string): (r: string)
    ensures |r| <= |s| && r == s[..|r|]
    ensures r == [] || !IsSpace(r[|r| - 1])
    ensures forall i :: |r| <= i < |s| ==> IsSpace(s[i])
  {
    if s != [] && IsSpace(s[|s| - 1]) then StripRight(s[..|s| - 1]) else s
  }

  /** Neither starts nor ends with whitespace. */
  predicate IsStripped(s: string) {
    s == [] || (!IsSpace(s[0]) && !IsSpace(s[|s| - 1]))
  }

  predicate AllSpace(s: string) { forall i :: 0 <= i < |s| ==> IsSpace(s[i]) }

  /** `s.strip()`. */
  function Strip(s: string): (r: string)
    ensures IsStripped(r)
    ensures |r| <= |s|
  {
    StripRight(StripLeft(s))
  }

  lemma {:induction false} StripLeftPadded(pre: string, s: string)
    requires AllSpace(pre)
    requires s == [] || !IsSpace(s[0])
    ensures StripLeft(pre + s) == s
  {
    if pre != [] {
      assert (pre + s)[1..] == pre[1..] + s;
      StripLeftPadded(pre[1..], s);
    }
  }

  lemma {:induction false} StripRightPadded(s: string, post: string)
    requires AllSpace(post)
    requires s == [] || !IsSpace(s[|s| - 1])
    ensures StripRight(s + post) == s
  {
    if post != [] {
      var n := |post| - 1;
      assert (s + post)[..|s + post| - 1] == s + post[..n];
      StripRightPadded(s, post[..n]);
    }
  }

  /** `strip()` removes exactly the surrounding whitespace: a stripped string
      padded on both sides with whitespace strips back to itself. */
  lemma StripPadded(pre: string, s: string, post: string)
    requires AllSpace(pre) && AllSpace(post) && IsStripped(s)
    ensures Strip(pre + s + post) == s
  {
    if s == [] {
      assert pre + s + post == pre + post;
      StripLeftPadded(pre + post, []);
      assert pre + post + [] == pre + post;
    } else {
      assert pre + s + post == pre + (s + post);
      StripLeftPadded(pre, s + post);
      StripRightPadded(s, post);
    }
  }

  /** `strip()` is idempotent. */
  lemma StripIdempotent(s: string)
    ensures Strip(Strip(s)) == Strip(s)
  {
    StripPadded([], Strip(s), []);
    assert [] + Strip(s) + [] == Strip(s);
  }

  // ---------------------------------------------------------------------------
  // `pat in s`, str.find, str.replace(pat, "")
  // ---------------------------------------------------------------------------

  /** `pat` occurs in `s` starting at position `j`. */
  predicate OccursAt(s: string, pat: string, j: nat) {
    j + |pat| <= |s| && s[j..j + |pat|] == pat
  }

  /** `pat in s`. */
  predicate HasSub(s: string, pat: string) {
    exists j: nat :: j <= |s| && OccursAt(s, pat, j)
  }

  lemma OccursAtTail(s: string, pat: string, j: nat)
    requires s != []
    ensures OccursAt(s[1..], pat, j) <==> OccursAt(s, pat, j + 1)
  {
    if j + |pat| <= |s[1..]| {
      assert s[1..][j..j + |pat|] == s[j + 1..j + 1 + |pat|];
    }
  }

  /** The position of the first occurrence of `pat` in `s` (`s.find(pat)`,
      with -1 written as None). */
  function FindFirst(s: string, pat: string): (r: Option<nat>)
    requires pat != []
    ensures r.None? <==> !HasSub(s, pat)
    ensures r.Some? ==> OccursAt(s, pat, r.value)
    ensures r.Some? ==> forall j: nat :: j < r.value ==> !OccursAt(s, pat, j)
    decreases |s|
  {
    if |s| < |pat| then None
    else if s[..|pat|] == pat then
      assert OccursAt(s, pat, 0);
      Some(0)
    else
      match FindFirst(s[1..], pat)
      case None =>
        assert !HasSub(s, pat) by {
          forall j: nat ensures !OccursAt(s, pat, j) {
            if j > 0 { OccursAtTail(s, pat, j - 1); }
          }
        }
        None
      case Some(i) =>
        OccursAtTail(s, pat, i);
        forall j: nat | 1 <= j < i + 1 ensures !OccursAt(s, pat, j) {
          OccursAtTail(s, pat, j - 1);
        }
        Some(i + 1)
  }

  /** `s.replace(pat, "")`: scans left to right and drops every
      non-overlapping occurrence of `pat`. */
  function RemoveAll(s: string, pat: string): (r: string)
    requires pat != []
    ensures |r| <= |s|
    decreases |s|
  {
    if |s| < |pat| then s
    else if s[..|pat|] == pat then RemoveAll(s[|pat|..], pat)
    else [s[0]] + RemoveAll(s[1..], pat)
  }

  lemma NoSubTail(s: string, pat: string)
    requires s != [] && !HasSub(s, pat)
    ensures !HasSub(s[1..], pat)
  {
    forall j: nat ensures !OccursAt(s[1..], pat, j) {
      OccursAtTail(s, pat, j);
    }
  }

  /** With no occurrence to remove, `replace` leaves the string alone. */
  lemma {:induction false} RemoveAllAbsent(s: string, pat: string)
    requires pat != [] && !HasSub(s, pat)
    ensures RemoveAll(s, pat) == s
    decreases |s|
  {
    if |pat| <= |s| {
      assert !OccursAt(s, pat, 0);
      NoSubTail(s, pat);
      RemoveAllAbsent(s[1..], pat);
      assert [s[0]] + s[1..] == s;
    }
  }

  /** An occurrence at the front is dropped, and scanning resumes after it. */
  lemma RemoveAllLeading(pat: string, s: string)
    requires pat != []
    ensures RemoveAll(pat + s, pat) == RemoveAll(s, pat)
  {
    assert (pat + s)[..|pat|] == pat;
    assert (pat + s)[|pat|..] == s;
  }

  /** A pattern containing a character the string lacks cannot occur in it. */
  lemma AbsentByChar(s: string, pat: string, c: char)
    requires c in pat && c !in s
    ensures !HasSub(s, pat)
  {
  }

  /** Prepending a character that cannot start the pattern adds no occurrence. */
  lemma AbsentPrepend(c: char, s: string, pat: string)
    requires pat != [] && c != pat[0] && !HasSub(s, pat)
    ensures !HasSub([c] + s, pat)
  {
    var t := [c] + s;
    assert t[1..] == s;
    forall j: nat ensures !OccursAt(t, pat, j) {
      if j > 0 { OccursAtTail(t, pat, j - 1); }
    }
  }

  // ---------------------------------------------------------------------------
  // str.split(sep) on a one-character separator
  // ---------------------------------------------------------------------------

  /** `s.split(sep)` for a single character `sep`: the pieces between the
      separators, always at least one. */
  function Split(s: string, sep: char): (r: seq<string>)
    ensures |r| >= 1
    ensures forall i :: 0 <= i < |r| ==> sep !in r[i]
  {
    if s == [] then [""]
    else
      var rest := Split(s[1..], sep);
      if s[0] == sep then [""] + rest
      else [[s[0]] + rest[0]] + rest[1..]
  }

  /** The inverse of `Split`: pieces glued back with the separator. */
  function Join(pieces: seq<string>, sep: char): string
    requires |pieces| >= 1
  {
    if |pieces| == 1 then pieces[0] else pieces[0] + [sep] + Join(pieces[1..], sep)
  }

  /** A string with no separator is a single piece. */
  lemma {:induction false} SplitWhole(s: string, sep: char)
    requires sep !in s
    ensures Split(s, sep) == [s]
  {
    if s != [] {
      SplitWhole(s[1..], sep);
      assert [s[0]] + s[1..] == s;
    }
  }

  /** The first piece runs up to the first separator. */
  lemma {:induction false} SplitFirst(a: string, sep: char, b: string)
    requires sep !in a
    ensures Split(a + [sep] + b, sep) == [a] + Split(b, sep)
  {
    if a == [] {
      assert a + [sep] + b == [sep] + b;
      assert ([sep] + b)[1..] == b;
    } else {
      assert (a + [sep] + b)[1..] == a[1..] + [sep] + b;
      SplitFirst(a[1..], sep, b);
      assert [a[0]] + a[1..] == a;
    }
  }

  /** Splitting and joining round-trip. */
  lemma {:induction false} JoinSplit(s: string, sep: char)
    ensures Join(Split(s, sep), sep) == s
  {
    if sep !in s {
      SplitWhole(s, sep);
    } else {
      var i :| 0 <= i < |s| && s[i] == sep;
      var k := i;
      while k > 0 && sep in s[..k]
        invariant 0 <= k <= i && s[k] == sep
        decreases k
      {
        var k' :| 0 <= k' < k && s[..k][k'] == sep;
        k := k';
      }
      assert s == s[..k] + [sep] + s[k + 1..];
      SplitFirst(s[..k], sep, s[k + 1..]);
      JoinSplit(s[k + 1..], sep);
    }
  }

  /** There is a second piece exactly when the separator occurs. */
  lemma {:induction false} SplitCount(s: string, sep: char)
    ensures |Split(s, sep)| >= 2 <==> sep in s
  {
    if sep !in s {
      SplitWhole(s, sep);
    } else {
      var i :| 0 <= i < |s| && s[i] == sep;
      JoinSplit(s, sep);
    }
  }

  // ---------------------------------------------------------------------------
  // str.split(sep, 1) on a multi-character separator
  // ---------------------------------------------------------------------------

  /** `s.split(sep, 1)`: split at the first occurrence of `sep` only. */
  function SplitOnce(s: string, sep: string): (r: seq<string>)
    requires sep != []
    ensures |r| == 1 <==> !HasSub(s, sep)
    ensures |r| == 1 ==> r[0] == s
    ensures |r| == 2 ==> r[0] + sep + r[1] == s && !HasSub(r[0], sep)
    ensures |r| == 2 ==> forall j: nat :: j < |r[0]| ==> !OccursAt(s, sep, j)
    ensures |r| == 1 || |r| == 2
  {
    var found := FindFirst(s, sep);
    match found
    case None => [s]
    case Some(i) =>
      assert s[..i] + sep + s[i + |sep|..] == s by {
        assert s == s[..i] + s[i..i + |sep|] + s[i + |sep|..];
      }
      assert !HasSub(s[..i], sep) by {
        forall j: nat ensures !OccursAt(s[..i], sep, j) {
          if j + |sep| <= i {
            assert s[..i][j..j + |sep|] == s[j..j + |sep|];
            assert j < found.value;
            assert !OccursAt(s, sep, j);
          }
        }
      }
      [s[..i], s[i + |sep|..]]
  }

  // ---------------------------------------------------------------------------
  // endswith, str(n)
  // ---------------------------------------------------------------------------

  predicate EndsWith(s: string, suffix: string) {
    |suffix| <= |s| && s[|s| - |suffix|..] == suffix
  }

  function DigitChar(d: nat): (c: char)
    requires d < 10
    ensures IsDigit(c)
  {
    (48 + d) as char
  }

  /** `str(n)` for a natural number: its decimal digits, most significant first. */
  function NatToString(n: nat): (r: string)
    ensures |r| >= 1
    ensures forall i :: 0 <= i < |r| ==> IsDigit(r[i])
    ensures n >= 10 ==> |r| >= 2
  {
    if n < 10 then [DigitChar(n)] else NatToString(n / 10) + [DigitChar(n % 10)]
  }

  /** Different numbers print differently. */
  lemma {:induction false} NatToStringInjective(a: nat, b: nat)
    requires NatToString(a) == NatToString(b)
    ensures a == b
  {
    if a >= 10 && b >= 10 {
      var sa, sb := NatToString(a), NatToString(b);
      assert sa[..|sa| - 1] == NatToString(a / 10);
      assert sb[..|sb| - 1] == NatToString(b / 10);
      NatToStringInjective(a / 10, b / 10);
      assert sa[|sa| - 1] == DigitChar(a % 10);
    }
  }
}
