/**
 * The review text every script builds from a title and a body: the two
 * joined by ", " (t65.py:390 and 396, cloud_storage_reader.py:85,
 * aivahub-build_002.py:69).
 */
module Reviews {
  import opened Text

  /** What `llm_chain.run(review)` does: return the model's text, or raise. */
  datatype Reply = Answer(text: string) | Raised

  const Separator: string := ", "

  /** The title, then ", ", then the body. */
  function ReviewText(title: string, body: string): (r: string)
    ensures |r| == |title| + |Separator| + |body|
    ensures r[..|title|] == title && r[|title| + |Separator|..] == body
    ensures OccursAt(r, Separator, |title|)
  {
    title + Separator + body
  }

  /** Where two review texts agree, a shorter title is followed by the
      separator inside the longer one. */
  lemma ShorterTitleExposesSeparator(t1: string, b1: string, t2: string, b2: string)
    requires ReviewText(t1, b1) == ReviewText(t2, b2) && |t1| < |t2|
    ensures OccursAt(t2, Separator, |t1|)
  {
    var r := ReviewText(t1, b1);
    assert r[|t1|..|t1| + 2] == Separator;
    assert r[|t2|..|t2| + 2] == Separator;
    assert r[|t1| + 1] == ' ' && r[|t2|] == ',';
    assert t2[|t1|..|t1| + 2] == r[|t1|..|t1| + 2];
  }

  /** The review text gives back the title and the body it was built from,
      as long as the titles hold no ", ". */
  lemma ReviewTextDecomposes(t1: string, b1: string, t2: string, b2: string)
    requires !HasSub(t1, Separator) && !HasSub(t2, Separator)
    requires ReviewText(t1, b1) == ReviewText(t2, b2)
    ensures t1 == t2 && b1 == b2
  {
    if |t1| < |t2| {
      ShorterTitleExposesSeparator(t1, b1, t2, b2);
    } else if |t2| < |t1| {
      ShorterTitleExposesSeparator(t2, b2, t1, b1);
    }
  }
}
