/**
 * The pure parts of `upload_to_gcs` (t65.py:106-163): the order in which an
 * upload is rejected, `os.path.splitext` on the client's file name, and the
 * choice of a blob name that does not collide with one already in the bucket.
 */
module Upload {
  import opened Wrappers
  import opened Text
  import opened Ingestion

  /** The `file` part of a multipart upload: client file name, byte size and
      the CSV content it holds. */
  datatype FileField = FileField(filename: string, size: nat, content: CsvFile)

  datatype Rejection = NoFile | NotCsv | EmptyFile

  /** The 400 body's message; each reason has its own. */
  function RejectionMessage(rejection: Rejection): (r: string)
    ensures r == "No file provided" <==> rejection == NoFile
    ensures r == "File type mismatch, CSV files only." <==> rejection == NotCsv
    ensures r == "Empty file provided" <==> rejection == EmptyFile
  {
    match rejection
    case NoFile => "No file provided"
    case NotCsv => "File type mismatch, CSV files only."
    case EmptyFile => "Empty file provided"
  }

  /** Why an upload is refused with 400, or None when it is accepted. A file
      part whose file name is empty is falsy, like a missing one. The checks
      run in the order missing, extension, size. */
  function CheckUpload(file: Option<FileField>): (r: Option<Rejection>)
    ensures r == Some(NoFile) <==> file.None? || file.value.filename == ""
    ensures r == Some(NotCsv) <==> file.Some? && file.value.filename != "" && !EndsWith(file.value.filename, ".csv")
    ensures r == Some(EmptyFile) <==> file.Some? && EndsWith(file.value.filename, ".csv") && file.value.size == 0
    ensures r == None <==> file.Some? && EndsWith(file.value.filename, ".csv") && file.value.size > 0
  {
    if file.None? || file.value.filename == "" then Some(NoFile)
    else if !EndsWith(file.value.filename, ".csv") then Some(NotCsv)
    else if file.value.size == 0 then Some(EmptyFile)
    else None
  }

  /** An upload that is accepted has a non-empty name ending in ".csv" and at
      least one byte; a name that is exactly ".csv" passes the check. */
  lemma DotCsvAlonePasses(content: CsvFile)
    ensures CheckUpload(Some(FileField(".csv", 1, content))) == None
    ensures CheckUpload(Some(FileField("reviews.CSV", 1, content))) == Some(NotCsv)
  {
    assert !EndsWith("reviews.CSV", ".csv") by {
      assert "reviews.CSV"[8] == 'C';
    }
  }

  // ---------------------------------------------------------------------------
  // os.path.splitext with '/' as the only separator
  // ---------------------------------------------------------------------------

  /** The index of the last `c` in `s`, or -1. */
  function LastIndexOf(s: string, c: char): (r: int)
    ensures -1 <= r < |s|
    ensures r >= 0 ==> s[r] == c
    ensures forall j :: r < j < |s| ==> s[j] != c
  {
    if s == [] then -1
    else if s[|s| - 1] == c then |s| - 1
    else LastIndexOf(s[..|s| - 1], c)
  }

  /** There is a character other than '.' in `s[lo..hi]`. */
  predicate HasNonDot(s: string, lo: int, hi: int)
    requires 0 <= lo <= hi <= |s|
  {
    exists k :: lo <= k < hi && s[k] != '.'
  }

  /** `path[k]` is a dot that starts an extension: no '.' or '/' follows it,
      and some character other than '.' precedes it in the same path
      component. */
  predicate ExtensionAt(path: string, k: int) {
    && 0 <= k < |path| && path[k] == '.'
    && (forall j :: k < j < |path| ==> path[j] != '.' && path[j] != '/')
    && exists m :: 0 <= m < k && path[m] != '.' && forall j :: m <= j < k ==> path[j] != '/'
  }

  /** The test `SplitExt` makes: the last '.' comes after the last '/', and a
      character other than '.' lies between them. */
  predicate SplitsAtLastDot(path: string) {
    var sepIndex := LastIndexOf(path, '/');
    var dotIndex := LastIndexOf(path, '.');
    dotIndex > sepIndex && HasNonDot(path, sepIndex + 1, dotIndex)
  }

  /** An extension can only start at the last dot, and only when the test
      passes. */
  lemma ExtensionOnlyAtLastDot(path: string, k: int)
    requires ExtensionAt(path, k)
    ensures k == LastIndexOf(path, '.') && SplitsAtLastDot(path)
  {
    var sepIndex := LastIndexOf(path, '/');
    var dotIndex := LastIndexOf(path, '.');
    assert k <= dotIndex;
    assert sepIndex < k;
    var m :| 0 <= m < k && path[m] != '.' && forall j :: m <= j < k ==> path[j] != '/';
    assert sepIndex < m;
    assert dotIndex == k;
    assert sepIndex + 1 <= m < dotIndex;
  }

  lemma ExtensionNeedsTest(path: string)
    ensures forall k :: ExtensionAt(path, k) ==> SplitsAtLastDot(path)
  {
    forall k | ExtensionAt(path, k)
      ensures SplitsAtLastDot(path)
    {
      ExtensionOnlyAtLastDot(path, k);
    }
  }

  /** `os.path.splitext(path)`: the extension starts at the last '.' of the
      last path component, unless every character before that dot in the
      component is a dot, in which case there is no extension. */
  function SplitExt(path: string): (r: (string, string))
    ensures r.0 + r.1 == path
    ensures r.1 == [] || (r.1[0] == '.' && '/' !in r.1 && forall j :: 0 < j < |r.1| ==> r.1[j] != '.')
    ensures r.1 != [] <==> exists k :: ExtensionAt(path, k)
    ensures r.1 != [] ==> ExtensionAt(path, |r.0|)
  {
    ExtensionNeedsTest(path);
    var sepIndex := LastIndexOf(path, '/');
    var dotIndex := LastIndexOf(path, '.');
    if dotIndex > sepIndex && HasNonDot(path, sepIndex + 1, dotIndex) then
      assert ExtensionAt(path, dotIndex);
      (path[..dotIndex], path[dotIndex..])
    else
      (path, "")
  }

  /** ".csv" appended after a non-dot character `base[m]` with no '/' after
      it starts an extension. */
  lemma CsvExtensionAt(base: string, m: int)
    requires 0 <= m < |base| && base[m] != '.'
    requires forall j :: m <= j < |base| ==> base[j] != '/'
    ensures ExtensionAt(base + ".csv", |base|)
  {
    var path := base + ".csv";
    forall j | |base| < j < |path|
      ensures path[j] != '.' && path[j] != '/'
    {
      var i := j - |base|;
      assert path[j] == ".csv"[i];
      assert i == 1 || i == 2 || i == 3;
    }
    assert path[m] == base[m];
    assert forall j :: m <= j < |base| ==> path[j] == base[j];
  }

  /** A name ending in ".csv" whose last path component has a character
      other than '.' before the extension splits into that base and ".csv". */
  lemma CsvExtension(base: string)
    requires HasNonDot(base, LastIndexOf(base, '/') + 1, |base|)
    ensures SplitExt(base + ".csv") == (base, ".csv")
  {
    var path := base + ".csv";
    var m :| LastIndexOf(base, '/') + 1 <= m < |base| && base[m] != '.';
    CsvExtensionAt(base, m);
    var r := SplitExt(path);
    ExtensionOnlyAtLastDot(path, |base|);
    ExtensionOnlyAtLastDot(path, |r.0|);
    assert r.0 == path[..|base|] == base;
  }

  /** A name made of dots and an extension has no extension. */
  lemma DotFileHasNoExtension()
    ensures SplitExt(".csv") == (".csv", "")
  {
    var path := ".csv";
    assert path[0] == '.' && path[1] != '.' && path[2] != '.' && path[3] != '.';
    assert LastIndexOf(path, '.') == 0;
  }

  // ---------------------------------------------------------------------------
  // Choosing the blob name (t65.py:127-134)
  // ---------------------------------------------------------------------------

  /** The n-th name the loop tries: the original name first, then
      "<root>-<n><ext>" for n = 1, 2, ... */
  function Probe(root: string, ext: string, n: nat): (r: string)
    ensures |r| >= |root| + |ext|
    ensures r[..|root|] == root && r[|r| - |ext|..] == ext
    ensures n == 0 <==> |r| == |root| + |ext|
    ensures n > 0 ==> r[|root|] == '-' && forall i :: |root| < i < |r| - |ext| ==> IsDigit(r[i])
  {
    if n == 0 then root + ext else root + "-" + NatToString(n) + ext
  }

  /** The loop never tries the same name twice. */
  lemma ProbeInjective(root: string, ext: string, i: nat, j: nat)
    requires Probe(root, ext, i) == Probe(root, ext, j)
    ensures i == j
  {
    if i > 0 && j > 0 {
      var p := Probe(root, ext, i);
      assert |NatToString(i)| == |NatToString(j)|;
      assert NatToString(i) == p[|root| + 1..|p| - |ext|];
      assert NatToString(j) == p[|root| + 1..|p| - |ext|];
      NatToStringInjective(i, j);
    }
  }

  /** `name` is the first probe not in `existing`: the original name when it
      is free, otherwise the smallest numbered variant that is free. */
  ghost predicate FirstFreeProbe(name: string, root: string, ext: string, existing: set<string>) {
    name !in existing
    && exists n: nat :: name == Probe(root, ext, n) && forall j: nat :: j < n ==> Probe(root, ext, j) in existing
  }

  /** The rename loop: probe names until one is not in the bucket. */
  method ChooseBlobName(root: string, ext: string, existing: set<string>) returns (name: string)
    ensures FirstFreeProbe(name, root, ext, existing)
  {
    name := root + ext;
    var counter: nat := 1;
    ghost var tried: set<string> := {};
    while name in existing
      invariant name == Probe(root, ext, counter - 1)
      invariant forall j: nat :: j < counter - 1 ==> Probe(root, ext, j) in existing
      invariant tried == set j: nat | j < counter - 1 :: Probe(root, ext, j)
      invariant tried <= existing
      decreases existing - tried
    {
      if name in tried {
        var j: nat :| j < counter - 1 && Probe(root, ext, j) == name;
        ProbeInjective(root, ext, j, counter - 1);
      }
      tried := tried + {name};
      assert tried == set j: nat | j < counter :: Probe(root, ext, j);
      name := root + "-" + NatToString(counter) + ext;
      counter := counter + 1;
    }
  }
}
