/**
 * The two pure steps of aivahub-build_002.py: turning the spreadsheet's name
 * into a table name by keeping only its alphanumeric characters
 * (aivahub-build_002.py:39), and building the review text from the first
 * stored row (aivahub-build_002.py:63-69).
 */
module TableName {
  import opened Wrappers
  import opened Text
  import opened Reviews

  /** `"".join(c for c in name if c.isalnum())`. */
  function Sanitize(name: string): (r: string)
    ensures |r| <= |name|
    ensures forall i :: 0 <= i < |r| ==> IsAlnum(r[i])
  {
    if name == [] then []
    else (if IsAlnum(name[0]) then [name[0]] else []) + Sanitize(name[1..])
  }

  /** `r` is `s` with some characters left out, order kept. */
  predicate IsSubsequence(r: string, s: string)
    decreases |s|
  {
    if r == [] then true
    else if s == [] then false
    else if r[0] == s[0] then IsSubsequence(r[1..], s[1..])
    else IsSubsequence(r, s[1..])
  }

  /** The table name keeps the name's characters in their order. */
  lemma {:induction false} SanitizeIsSubsequence(name: string)
    ensures IsSubsequence(Sanitize(name), name)
  {
    if name != [] {
      SanitizeIsSubsequence(name[1..]);
      if IsAlnum(name[0]) {
        assert Sanitize(name) == [name[0]] + Sanitize(name[1..]);
        assert Sanitize(name)[1..] == Sanitize(name[1..]);
      } else {
        assert Sanitize(name) == Sanitize(name[1..]);
        SubsequenceOfTail(Sanitize(name), name);
      }
    }
  }

  lemma {:induction false} SubsequenceOfTail(r: string, s: string)
    requires s != [] && IsSubsequence(r, s[1..])
    ensures IsSubsequence(r, s)
    decreases |s|, 0
  {
    if r != [] && r[0] == s[0] {
      SubsequenceDropFirst(r, s[1..]);
    }
  }

  lemma {:induction false} SubsequenceDropFirst(r: string, s: string)
    requires r != [] && IsSubsequence(r, s)
    ensures IsSubsequence(r[1..], s)
    decreases |s|, 1
  {
    if r[0] == s[0] {
      if r[1..] != [] {
        SubsequenceOfTail(r[1..], s);
      }
    } else {
      SubsequenceDropFirst(r, s[1..]);
      if r[1..] != [] {
        SubsequenceOfTail(r[1..], s);
      }
    }
  }

  /** Every alphanumeric character of the name is kept, in place of the
      ones dropped: sanitizing distributes over concatenation. */
  lemma {:induction false} SanitizeConcat(a: string, b: string)
    ensures Sanitize(a + b) == Sanitize(a) + Sanitize(b)
  {
    if a == [] {
      assert a + b == b;
    } else {
      assert (a + b)[0] == a[0];
      assert (a + b)[1..] == a[1..] + b;
      SanitizeConcat(a[1..], b);
    }
  }

  /** A name that is already alphanumeric is its own table name. */
  lemma {:induction false} SanitizeKeepsAlnum(name: string)
    requires forall i :: 0 <= i < |name| ==> IsAlnum(name[i])
    ensures Sanitize(name) == name
  {
    if name != [] {
      SanitizeKeepsAlnum(name[1..]);
    }
  }

  /** Sanitizing twice is sanitizing once. */
  lemma SanitizeIdempotent(name: string)
    ensures Sanitize(Sanitize(name)) == Sanitize(name)
  {
    SanitizeKeepsAlnum(Sanitize(name));
  }

  /** The table name is empty exactly when the name has no alphanumeric
      character, in which case the CREATE TABLE statement has no name. */
  lemma {:induction false} SanitizeEmpty(name: string)
    ensures Sanitize(name) == [] <==> forall i :: 0 <= i < |name| ==> !IsAlnum(name[i])
  {
    if name != [] {
      SanitizeEmpty(name[1..]);
      assert forall i :: 1 <= i < |name| ==> name[i] == name[1..][i - 1];
    }
  }

  lemma SanitizeExample()
    ensures Sanitize("Q-1") == "Q1"
  {
    assert "Q-1"[1..] == "-1" && "-1"[1..] == "1" && "1"[1..] == [];
    assert Sanitize("1") == "1";
    assert Sanitize("-1") == "1";
  }

  /** `str(v)` for a column value fetched from the database: NULL prints as
      "None". */
  function Show(v: Option<string>): string {
    if v.None? then "None" else v.value
  }

  /** The review text of the first stored row, or None when the table is
      empty and nothing is classified. */
  function FirstRowReview(row: Option<(Option<string>, Option<string>)>): (r: Option<string>)
    ensures r.None? <==> row.None?
    ensures row.Some? && row.value.0.Some? && row.value.1.Some? ==> r == Some(ReviewText(row.value.0.value, row.value.1.value))
    ensures row.Some? && row.value.0.None? ==> |r.value| >= 6 && r.value[..6] == "None, "
    ensures row.Some? && row.value.1.None? ==> |r.value| >= 4 && r.value[|r.value| - 4..] == "None"
  {
    match row
    case None => None
    case Some((title, body)) => Some(ReviewText(Show(title), Show(body)))
  }

  /** The review text of the first row gives back its title and body as
      printed, as long as the titles hold no ", " (a NULL and the text
      "None" print alike). */
  lemma FirstRowReviewDecomposes(a: (Option<string>, Option<string>), b: (Option<string>, Option<string>))
    requires !HasSub(Show(a.0), Separator) && !HasSub(Show(b.0), Separator)
    requires FirstRowReview(Some(a)) == FirstRowReview(Some(b))
    ensures Show(a.0) == Show(b.0) && Show(a.1) == Show(b.1)
  {
    ReviewTextDecomposes(Show(a.0), Show(a.1), Show(b.0), Show(b.1));
  }
}
