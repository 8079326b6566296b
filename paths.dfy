/** The parts of Python's `pathlib.PurePosixPath` the service relies on:
    `name` (the final path component), `suffix` and `stem`, and the
    `str.rfind` they are defined with. */
module PurePath {

  /** `s.rfind(c)`: the index of the last occurrence of `c` in `s`, or -1. */
  function RFind(s: string, c: char): (i: int)
    ensures -1 <= i < |s|
    ensures i >= 0 ==> s[i] == c
  {
    if s == [] then -1
    else if s[|s| - 1] == c then |s| - 1
    else RFind(s[..|s| - 1], c)
  }

  /** No occurrence of `c` follows the one `rfind` reports. */
  lemma {:induction false} RFindSpec(s: string, c: char)
    ensures forall j :: RFind(s, c) < j < |s| ==> s[j] != c
  {
    if s != [] && s[|s| - 1] != c {
      RFindSpec(s[..|s| - 1], c);
    }
  }

  /** The last occurrence of `c` is the one after which no `c` follows. */
  lemma RFindAt(s: string, c: char, i: nat)
    requires i < |s| && s[i] == c
    requires forall j :: i < j < |s| ==> s[j] != c
    ensures RFind(s, c) == i
  {
    RFindSpec(s, c);
  }

  /** Whether `s` is a single path component: not empty, not ".", no '/'. */
  predicate IsComponent(s: string) {
    s != [] && s != "." && forall j :: 0 <= j < |s| ==> s[j] != '/'
  }

  /** `Path(p).name`. The path is split at '/', empty components and "."
      components are dropped, and the last remaining component is the name
      ("" when none is left: `Path("")`, `Path(".")`, `Path("/")`). */
  function Name(p: string): (r: string)
    decreases |p|
    ensures r == [] || r[|r| - 1] != '/'
  {
    if p == [] then []
    else if p[|p| - 1] == '/' then Name(p[..|p| - 1])
    else
      var i := RFind(p, '/');
      var last := p[i + 1..];
      if last == "." then Name(p[..i + 1]) else last
  }

  /** The name is empty or a single component, and a single component is its
      own name. */
  lemma {:induction false} NameSpec(p: string)
    decreases |p|
    ensures Name(p) == [] || IsComponent(Name(p))
    ensures IsComponent(p) ==> Name(p) == p
  {
    if p != [] {
      if p[|p| - 1] == '/' {
        NameSpec(p[..|p| - 1]);
      } else {
        var i := RFind(p, '/');
        RFindSpec(p, '/');
        if p[i + 1..] == "." {
          NameSpec(p[..i + 1]);
        }
      }
    }
  }

  /** Whether the final component has a suffix: its last dot is neither its
      first nor its last character. */
  predicate HasSuffix(n: string) {
    var i := RFind(n, '.');
    0 < i < |n| - 1
  }

  /** `Path(p).suffix`: the final component from its last dot on, or "" when
      that dot is missing, leads the name (".bashrc") or ends it ("notes."). */
  function Suffix(p: string): (r: string)
    ensures r == [] || (|r| >= 2 && r[0] == '.' && r[1] != '.')
  {
    var n := Name(p);
    RFindSpec(n, '.');
    if HasSuffix(n) then n[RFind(n, '.')..] else []
  }

  /** A suffix holds exactly one dot, its first character. */
  lemma SuffixSpec(p: string)
    ensures forall j :: 1 <= j < |Suffix(p)| ==> Suffix(p)[j] != '.'
  {
    RFindSpec(Name(p), '.');
  }

  /** `Path(p).stem`: the final component without its suffix. */
  function Stem(p: string): (r: string)
    ensures |r| <= |Name(p)|
  {
    var n := Name(p);
    if HasSuffix(n) then n[..RFind(n, '.')] else n
  }

  /** The stem followed by the suffix gives back the final component, and a
      name with a suffix has a non-empty stem. */
  lemma StemSuffixSplit(p: string)
    ensures Stem(p) + Suffix(p) == Name(p)
    ensures Suffix(p) != [] ==> Stem(p) != []
  {
  }

  /** Both directions of when a path has a suffix, in terms of the
      characters of its final component. */
  lemma SuffixNonEmptyIff(p: string)
    ensures var n := Name(p);
      Suffix(p) != [] <==>
        (n != [] && n[|n| - 1] != '.' && exists j :: 0 < j < |n| && n[j] == '.')
  {
    var n := Name(p);
    var i := RFind(n, '.');
    RFindSpec(n, '.');
    if n != [] && n[|n| - 1] != '.' && exists j :: 0 < j < |n| && n[j] == '.' {
      var j :| 0 < j < |n| && n[j] == '.';
      assert i >= j;
      assert i != |n| - 1;
    }
  }

  /** A name whose only dot leads it has no suffix and is all stem. */
  lemma DotFileExample()
    ensures Suffix(".bashrc") == [] && Stem(".bashrc") == ".bashrc"
  {
    var n := ".bashrc";
    NameSpec(n);
    RFindAt(n, '.', 0);
  }

  /** Only the last dot of the final component counts. */
  lemma LastDotExample()
    ensures Suffix("a.tar.gz") == ".gz" && Stem("a.tar.gz") == "a.tar"
  {
    var n := "a.tar.gz";
    NameSpec(n);
    RFindAt(n, '.', 5);
  }

  /** A trailing slash does not end the name. */
  lemma NameExample()
    ensures Name("uploads/audio/song.mp3/") == "song.mp3"
  {
    var p := "uploads/audio/song.mp3";
    assert "uploads/audio/song.mp3/"[..|p|] == p;
    RFindAt(p, '/', 13);
    assert p[14..] == "song.mp3";
  }
}
