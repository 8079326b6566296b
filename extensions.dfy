/** The fixed table of supported extensions, the category folders, the
    sorted key list the error responses carry, and the lookup of the tool a
    category is converted with. */
module Extensions {
  import opened Text

  /** `ALLOWED_FILE_TYPES`: the category folders under the upload root. */
  const AllowedFileTypes: set<string> := {"image", "document", "audio", "video", "other"}

  /** `SUPPORTED_EXTENSIONS`: lower-case extension without a dot, to category. */
  const SupportedExtensions: map<string, string> := map[
    "jpg" := "image", "jpeg" := "image", "png" := "image", "bmp" := "image",
    "flv" := "video", "mov" := "video", "mp4" := "video", "avi" := "video",
    "wav" := "audio", "mp3" := "audio", "3gp" := "audio", "3gg" := "audio",
    "mid" := "audio", "midi" := "audio"
  ]

  /** `sorted(list(SUPPORTED_EXTENSIONS.keys()))`, as listed in the
      `supported_extensions` field of the error responses. */
  const SortedSupported: seq<string> := [
    "3gg", "3gp", "avi", "bmp", "flv", "jpeg", "jpg",
    "mid", "midi", "mov", "mp3", "mp4", "png", "wav"
  ]

  /** `SUPPORTED_EXTENSIONS.get(ext)`: a category exactly for the table keys,
      always one of the three media categories, each a category folder. */
  function CategoryOf(ext: string): (r: Option<string>)
    ensures r.Some? <==> ext in SupportedExtensions
    ensures r.Some? ==> r.value == SupportedExtensions[ext]
    ensures r.Some? ==> r.value == "image" || r.value == "video" || r.value == "audio"
    ensures r.Some? ==> r.value in AllowedFileTypes
  {
    TableCategories();
    if ext in SupportedExtensions then Some(SupportedExtensions[ext]) else None
  }

  datatype Option<T> = None | Some(value: T)

  /** Every table value is one of image, video or audio, and every one of
      them is a category folder. */
  lemma TableCategories()
    ensures forall e :: e in SupportedExtensions ==> SupportedExtensions[e] in {"image", "video", "audio"}
    ensures SupportedExtensions.Values <= AllowedFileTypes
  {
  }

  /** Every key is already in normal form (non-empty, lower case, no leading
      dot), so each one is reachable from user input. */
  lemma KeysAreNormalized()
    ensures forall e :: e in SupportedExtensions ==> e != [] && Normalize(e) == e
  {
    SortedSupportedHasKeys();
    forall i | 0 <= i < |SortedSupported|
      ensures SortedSupported[i] != [] && Normalize(SortedSupported[i]) == SortedSupported[i]
    {
      NormalizeNormalForm(SortedSupported[i]);
    }
  }

  /** Python's `<` on strings: compare code points at the first position
      where the strings differ; a proper prefix comes first. */
  predicate LexLess(a: string, b: string) {
    b != [] && (a == [] || a[0] < b[0] || (a[0] == b[0] && LexLess(a[1..], b[1..])))
  }

  lemma {:induction false} LexLessIrreflexive(a: string)
    ensures !LexLess(a, a)
  {
    if a != [] {
      LexLessIrreflexive(a[1..]);
    }
  }

  lemma {:induction false} LexLessTransitive(a: string, b: string, c: string)
    requires LexLess(a, b) && LexLess(b, c)
    ensures LexLess(a, c)
  {
    if a != [] && a[0] == b[0] && b[0] == c[0] {
      LexLessTransitive(a[1..], b[1..], c[1..]);
    }
  }

  /** The set of elements of a sequence. */
  function Elements(s: seq<string>): set<string> {
    set x | x in s
  }

  lemma ElementsOfNonEmpty(s: seq<string>)
    ensures s != [] ==> s[0] in Elements(s)
  {
  }

  /** Each element is smaller than the next one. */
  predicate StrictlySorted(s: seq<string>) {
    forall i :: 0 < i < |s| ==> LexLess(s[i - 1], s[i])
  }

  /** Each element is smaller than every later one. */
  predicate StrictlySortedPairwise(s: seq<string>) {
    forall i, j :: 0 <= i < j < |s| ==> LexLess(s[i], s[j])
  }

  lemma {:induction false} SortedPairwise(s: seq<string>)
    requires StrictlySorted(s)
    ensures StrictlySortedPairwise(s)
  {
    if |s| > 1 {
      SortedPairwise(s[1..]);
      forall j | 1 < j < |s|
        ensures LexLess(s[0], s[j])
      {
        assert LexLess(s[1], s[j]) by { assert s[1..][0] == s[1] && s[1..][j - 1] == s[j]; }
        LexLessTransitive(s[0], s[1], s[j]);
      }
    }
  }

  /** Two strictly sorted sequences with the same elements are equal: a
      strictly sorted sequence is determined by its set of elements. */
  lemma {:induction false} SortedUnique(a: seq<string>, b: seq<string>)
    requires StrictlySortedPairwise(a) && StrictlySortedPairwise(b)
    requires Elements(a) == Elements(b)
    ensures a == b
  {
    if a != [] {
      assert a[0] in Elements(b);
      assert b != [];
      var j :| 0 <= j < |b| && b[j] == a[0];
      assert b[0] in Elements(a);
      var i :| 0 <= i < |a| && a[i] == b[0];
      if i != 0 && j != 0 {
        LexLessTransitive(a[0], a[i], a[0]);
        LexLessIrreflexive(a[0]);
      } else if i != 0 {
        LexLessIrreflexive(a[0]);
      } else if j != 0 {
        LexLessIrreflexive(b[0]);
      }
      assert a[0] == b[0];
      LexLessIrreflexive(a[0]);
      forall x | x in a[1..] ensures x in b[1..] {
        var k :| 1 <= k < |a| && a[k] == x;
        assert LexLess(a[0], x);
        assert x in Elements(b);
        var m :| 0 <= m < |b| && b[m] == x;
        assert m != 0 && b[1..][m - 1] == x;
      }
      forall x | x in b[1..] ensures x in a[1..] {
        var k :| 1 <= k < |b| && b[k] == x;
        assert LexLess(b[0], x);
        assert x in Elements(a);
        var m :| 0 <= m < |a| && a[m] == x;
        assert m != 0 && a[1..][m - 1] == x;
      }
      assert Elements(a[1..]) == Elements(b[1..]);
      SortedUnique(a[1..], b[1..]);
    } else {
      ElementsOfNonEmpty(b);
    }
  }

  /** `a` comes before `b` when they agree up to position `k` and there
      `a` ends or has the smaller character. */
  lemma {:induction false} LexLessAt(a: string, b: string, k: nat)
    requires k <= |a| && k < |b| && a[..k] == b[..k]
    requires k == |a| || a[k] < b[k]
    ensures LexLess(a, b)
  {
    if k > 0 {
      assert a[0] == a[..k][0] && b[0] == b[..k][0];
      assert a[1..][..k - 1] == a[..k][1..] && b[1..][..k - 1] == b[..k][1..];
      LexLessAt(a[1..], b[1..], k - 1);
    }
  }

  lemma SortedSupportedSorted()
    ensures StrictlySorted(SortedSupported)
  {
    var s := SortedSupported;
    LexLessAt(s[0], s[1], 2);
    LexLessAt(s[1], s[2], 0);
    LexLessAt(s[2], s[3], 0);
    LexLessAt(s[3], s[4], 0);
    LexLessAt(s[4], s[5], 0);
    LexLessAt(s[5], s[6], 2);
    LexLessAt(s[6], s[7], 0);
    LexLessAt(s[7], s[8], 3);
    LexLessAt(s[8], s[9], 1);
    LexLessAt(s[9], s[10], 1);
    LexLessAt(s[10], s[11], 2);
    LexLessAt(s[11], s[12], 0);
    LexLessAt(s[12], s[13], 0);
  }

  lemma SortedSupportedHasKeys()
    ensures Elements(SortedSupported) == SupportedExtensions.Keys
  {
  }

  /** `SortedSupported` is what `sorted(list(SUPPORTED_EXTENSIONS.keys()))`
      returns: it lists each of the 14 keys once, in increasing order, and it
      is the only sequence that does. */
  lemma SortedSupportedIsSortedKeys(s: seq<string>)
    requires StrictlySorted(s) && Elements(s) == SupportedExtensions.Keys
    ensures s == SortedSupported
    ensures |s| == 14
  {
    SortedSupportedSorted();
    SortedSupportedHasKeys();
    SortedPairwise(s);
    SortedPairwise(SortedSupported);
    SortedUnique(s, SortedSupported);
  }

  /** An optional form or query field normalised as the service does:
      `s.lower().lstrip('.')` when the field is present and non-empty, and
      nothing ("") otherwise. Because the normal form of "" is "", the
      truthiness test on the raw field is covered by `Normalize` itself. */
  function FieldExtension(field: Option<string>): (r: string)
    ensures field.Some? ==> r == Normalize(field.value)
    ensures field.None? ==> r == []
    ensures r == [] || r[0] != '.'
    ensures r == [] <==> field.None? || AllDots(field.value)
  {
    match field
    case None => []
    case Some(s) => NormalizeEmpty(s); Normalize(s)
  }

  /** What the conversion-target checks decide about a normalised target. */
  datatype TargetVerdict = NoTarget | UnsupportedTarget | Mismatched | SameCategory

  /** The two target checks shared by upload and download: a non-empty
      target must be a table key, and its category must equal the source's
      category (`None` when the source extension is not in the table, which
      no table category equals). */
  function CheckTarget(target: string, sourceCategory: Option<string>): (v: TargetVerdict)
    ensures v == NoTarget <==> target == []
    ensures v == UnsupportedTarget <==> target != [] && target !in SupportedExtensions
    ensures v == Mismatched <==> target in SupportedExtensions && CategoryOf(target) != sourceCategory
    ensures v == SameCategory ==> sourceCategory == CategoryOf(target) && sourceCategory.Some?
  {
    if target == [] then NoTarget
    else if target !in SupportedExtensions then UnsupportedTarget
    else if Some(SupportedExtensions[target]) != sourceCategory then Mismatched
    else SameCategory
  }

  /** The converter each category is handled by. */
  datatype Tool = Pillow | Ffmpeg | NotSupported

  /** Images go to Pillow, audio and video to ffmpeg, and the remaining
      category folders ("document", "other") have no conversion. */
  function ToolFor(category: string): (t: Tool)
    ensures t == Pillow <==> category == "image"
    ensures t == Ffmpeg <==> category == "audio" || category == "video"
  {
    if category == "image" then Pillow
    else if category == "audio" || category == "video" then Ffmpeg
    else NotSupported
  }

  /** Of the category folders, exactly "document" and "other" have no
      converter. */
  lemma FoldersWithoutConverter()
    ensures forall c :: c in AllowedFileTypes ==> (ToolFor(c) == NotSupported <==> c == "document" || c == "other")
  {
  }

  /** A category taken from the table always has a converter. */
  lemma TableCategoriesConvertible(ext: string)
    requires ext in SupportedExtensions
    ensures ToolFor(SupportedExtensions[ext]) != NotSupported
  {
  }
}
