/** `os.path.splitext` with POSIX separators: `/` separates directories and
    `.` starts an extension. */
module PosixPath {
  import opened Python

  /** `s.rfind(c)`: the last position of `c` in `s`, or -1 when there is none. */
  function RFind(s: string, c: char): (i: int)
    ensures -1 <= i < |s|
    ensures 0 <= i ==> s[i] == c
    ensures forall j :: i < j < |s| ==> s[j] != c
  {
    if s == [] then -1
    else if s[|s| - 1] == c then |s| - 1
    else RFind(s[..|s| - 1], c)
  }

  predicate HasNonDot(s: string)
  {
    exists i :: 0 <= i < |s| && s[i] != '.'
  }

  lemma SplitAtJoins(p: string, k: int)
    requires 0 <= k <= |p|
    ensures p[..k] + p[k..] == p
  {
  }

  /** `splitext(p)`: the extension runs from the last `.` to the end, provided
      that dot lies after the last `/` and some character of the base name
      before it is not a dot; otherwise the extension is empty. */
  function SplitExt(p: string): (r: (string, string))
    ensures r.0 + r.1 == p
  {
    var sep := RFind(p, '/');
    var dot := RFind(p, '.');
    if dot > sep && HasNonDot(p[sep + 1..dot]) then
      SplitAtJoins(p, dot);
      (p[..dot], p[dot..])
    else (p, [])
  }

  function Extension(p: string): string
  {
    SplitExt(p).1
  }

  /** Position `i` of `p` starts an extension: it holds a dot, no dot or
      slash follows it, and some earlier character of the same base name is
      not a dot. */
  ghost predicate ExtensionDot(p: string, i: int)
  {
    && 0 <= i < |p|
    && p[i] == '.'
    && (forall j :: i < j < |p| ==> p[j] != '.' && p[j] != '/')
    && exists j :: 0 <= j < i && p[j] != '.' && p[j] != '/' && forall m :: j < m < i ==> p[m] != '/'
  }

  lemma RFindIsLast(s: string, c: char, i: int)
    requires 0 <= i < |s| && s[i] == c
    requires forall j :: i < j < |s| ==> s[j] != c
    ensures RFind(s, c) == i
  {
  }

  lemma RFindBefore(s: string, c: char, j: int)
    requires 0 <= j < |s|
    requires forall m :: j <= m < |s| ==> s[m] != c
    ensures RFind(s, c) < j
  {
  }

  lemma HasNonDotAt(s: string, k: int)
    requires 0 <= k < |s| && s[k] != '.'
    ensures HasNonDot(s)
  {
  }

  lemma HasNonDotIn(p: string, lo: int, hi: int, j: int)
    requires 0 <= lo <= j < hi <= |p| && p[j] != '.'
    ensures HasNonDot(p[lo..hi])
  {
    assert p[lo..hi][j - lo] == p[j];
  }

  /** When the last dot follows the last slash and some earlier character of
      the base name is not a dot, the extension starts at the last dot. */
  lemma ExtensionAtLastDot(p: string)
    requires RFind(p, '.') > RFind(p, '/')
    requires HasNonDot(p[RFind(p, '/') + 1..RFind(p, '.')])
    ensures Extension(p) == p[RFind(p, '.')..]
  {
  }

  /** A position that starts an extension is the one `splitext` cuts at. */
  lemma ExtensionAt(p: string, i: int)
    requires ExtensionDot(p, i)
    ensures Extension(p) == p[i..]
  {
    assert RFind(p, '.') == i by {
      RFindIsLast(p, '.', i);
    }
    var sep := RFind(p, '/');
    assert sep < i && HasNonDot(p[sep + 1..i]) by {
      var j :| 0 <= j < i && p[j] != '.' && p[j] != '/' && forall m :: j < m < i ==> p[m] != '/';
      RFindBefore(p, '/', j);
      HasNonDotIn(p, sep + 1, i, j);
    }
    ExtensionAtLastDot(p);
  }

  /** When `splitext` cuts at the last dot, that dot starts an extension. */
  lemma LastDotStartsExtension(p: string)
    requires RFind(p, '.') > RFind(p, '/')
    requires HasNonDot(p[RFind(p, '/') + 1..RFind(p, '.')])
    ensures ExtensionDot(p, RFind(p, '.'))
  {
    var sep := RFind(p, '/');
    var dot := RFind(p, '.');
    var k :| 0 <= k < |p[sep + 1..dot]| && p[sep + 1..dot][k] != '.';
    var j := sep + 1 + k;
    assert p[j] == p[sep + 1..dot][k];
    assert 0 <= j < dot && p[j] != '.' && p[j] != '/';
    assert forall m :: j < m < dot ==> p[m] != '/';
    assert forall m :: dot < m < |p| ==> p[m] != '.' && p[m] != '/';
  }

  /** When no position starts an extension, `splitext` returns an empty one. */
  lemma ExtensionNone(p: string)
    requires forall i :: !ExtensionDot(p, i)
    ensures Extension(p) == []
  {
    var sep := RFind(p, '/');
    var dot := RFind(p, '.');
    if dot > sep && HasNonDot(p[sep + 1..dot]) {
      LastDotStartsExtension(p);
    }
  }

  /** The extension `splitext` returns is the suffix from the position that
      starts an extension, or empty when no position does. */
  lemma ExtensionCharacterized(p: string)
    ensures forall i :: ExtensionDot(p, i) ==> Extension(p) == p[i..]
    ensures (forall i :: !ExtensionDot(p, i)) ==> Extension(p) == []
  {
    forall i | ExtensionDot(p, i) ensures Extension(p) == p[i..] {
      ExtensionAt(p, i);
    }
    if forall i :: !ExtensionDot(p, i) {
      ExtensionNone(p);
    }
  }

  /** In `stem` + `ext` after an optional directory part, where `ext` is a
      dot followed by neither dot nor slash, the dot of `ext` starts an
      extension. */
  lemma StemAndExtensionDot(dir: string, stem: string, ext: string)
    requires dir == [] || dir[|dir| - 1] == '/'
    requires '/' !in stem && HasNonDot(stem)
    requires |ext| > 0 && ext[0] == '.' && '/' !in ext && '.' !in ext[1..]
    ensures ExtensionDot(dir + stem + ext, |dir| + |stem|)
    ensures (dir + stem + ext)[|dir| + |stem|..] == ext
  {
    var p := dir + stem + ext;
    var i := |dir| + |stem|;
    assert p[i] == '.';
    assert forall j :: i < j < |p| ==> p[j] != '.' && p[j] != '/' by {
      assert forall j :: i < j < |p| ==> p[j] == ext[1..][j - i - 1];
    }
    assert exists j :: 0 <= j < i && p[j] != '.' && p[j] != '/' && forall m :: j < m < i ==> p[m] != '/' by {
      var k :| 0 <= k < |stem| && stem[k] != '.';
      assert forall m :: |dir| <= m < i ==> p[m] == stem[m - |dir|];
      assert p[|dir| + k] == stem[k];
    }
  }

  /** A name made of a stem that is not all dots and an extension `ext`,
      after an optional directory part, has `ext` as its extension whenever
      neither holds a separator and `ext` is one dot followed by no dot. */
  lemma ExtensionOfStem(dir: string, stem: string, ext: string)
    requires dir == [] || dir[|dir| - 1] == '/'
    requires '/' !in stem && HasNonDot(stem)
    requires |ext| > 0 && ext[0] == '.' && '/' !in ext && '.' !in ext[1..]
    ensures Extension(dir + stem + ext) == ext
  {
    StemAndExtensionDot(dir, stem, ext);
    ExtensionAt(dir + stem + ext, |dir| + |stem|);
  }

  /** A base name made only of dots and a final word has no extension: its
      leading dots do not start one. */
  lemma NoExtensionAfterDotsOnly(dir: string, dots: string, word: string)
    requires dir == [] || dir[|dir| - 1] == '/'
    requires forall k :: 0 <= k < |dots| ==> dots[k] == '.'
    requires '/' !in word && '.' !in word
    ensures Extension(dir + dots + word) == []
  {
    var p := dir + dots + word;
    assert forall k :: |dir| <= k < |dir| + |dots| ==> p[k] == dots[k - |dir|];
    assert forall k :: |dir| + |dots| <= k < |p| ==> p[k] == word[k - |dir| - |dots|];
    assert |dir| > 0 ==> p[|dir| - 1] == '/';
    ExtensionNone(p);
  }

  /** A name in which every dot is followed by a later slash (the dots all
      sit in directory names) has no extension. */
  lemma NoExtensionInDirectoryPart(p: string)
    requires forall i :: 0 <= i < |p| && p[i] == '.' ==> exists j :: i < j < |p| && p[j] == '/'
    ensures Extension(p) == []
  {
    ExtensionNone(p);
  }

  /** Lowering the ASCII letters moves no dot and no slash. */
  lemma LowerKeepsExtensionDot(p: string, i: int)
    ensures ExtensionDot(Lower(p), i) <==> ExtensionDot(p, i)
  {
    var q := Lower(p);
    assert forall k :: 0 <= k < |p| ==> (q[k] == '.' <==> p[k] == '.') && (q[k] == '/' <==> p[k] == '/');
  }

  lemma ExtensionOfLowerAt(p: string, i: int)
    requires ExtensionDot(p, i)
    ensures Extension(Lower(p)) == Lower(Extension(p))
  {
    LowerKeepsExtensionDot(p, i);
    ExtensionAt(p, i);
    ExtensionAt(Lower(p), i);
    LowerSuffix(p, i);
  }

  lemma ExtensionOfLowerNone(p: string)
    requires forall i :: !ExtensionDot(p, i)
    ensures Extension(Lower(p)) == Lower(Extension(p))
  {
    forall i ensures !ExtensionDot(Lower(p), i) {
      LowerKeepsExtensionDot(p, i);
    }
    ExtensionNone(p);
    ExtensionNone(Lower(p));
  }

  /** Lowering the ASCII letters changes neither where the extension starts
      nor anything of it but its letters. */
  lemma ExtensionOfLower(p: string)
    ensures Extension(Lower(p)) == Lower(Extension(p))
  {
    if i :| ExtensionDot(p, i) {
      ExtensionOfLowerAt(p, i);
    } else {
      ExtensionOfLowerNone(p);
    }
  }
}
