/** A model of POSIX `os.path.splitext`: split a path into a root and an
    extension, where the extension runs from the last '.' of the final path
    component to the end, unless that component has only dots before it. */
module PosixPath {

  const Sep: char := '/'
  const ExtSep: char := '.'

  /** `s.rfind(c)` for one character: the last index holding `c`, or -1. */
  function RFind(s: string, c: char): (r: int)
    ensures -1 <= r < |s|
    ensures 0 <= r ==> s[r] == c
    ensures forall k :: r < k < |s| ==> s[k] != c
  {
    if |s| == 0 then -1
    else if s[|s| - 1] == c then |s| - 1
    else RFind(s[..|s| - 1], c)
  }

  /** Every character of `p` from index `lo` up to (not including) `hi` is
      the extension separator. */
  predicate AllDotsBetween(p: string, lo: int, hi: int)
    requires 0 <= lo && hi <= |p|
  {
    forall k :: lo <= k < hi ==> p[k] == ExtSep
  }

  /** `splitext(p)`, returned as (root, extension). Leading dots of the final
      component (".bashrc", "..") do not start an extension. */
  function SplitExt(p: string): (r: (string, string))
    ensures r.0 + r.1 == p
    ensures forall k :: 0 <= k < |r.1| ==> r.1[k] != Sep
    ensures r.1 == [] || (r.1[0] == ExtSep && forall k :: 1 <= k < |r.1| ==> r.1[k] != ExtSep)
  {
    var sepIndex := RFind(p, Sep);
    var dotIndex := RFind(p, ExtSep);
    if dotIndex > sepIndex && !AllDotsBetween(p, sepIndex + 1, dotIndex) then
      var root, ext := p[..dotIndex], p[dotIndex..];
      assert root + ext == p;
      assert forall k :: 0 <= k < |ext| ==> ext[k] == p[dotIndex + k];
      (root, ext)
    else
      assert p + p[..0] == p;
      (p, p[..0])
  }

  /** The extension of `p` starts at index `i`: `p[i]` is a dot, no dot or
      separator follows it, and some character other than a dot precedes it
      within the final path component. */
  ghost predicate ExtensionStartsAt(p: string, i: int) {
    0 <= i < |p| && p[i] == ExtSep &&
    (forall k :: i < k < |p| ==> p[k] != ExtSep && p[k] != Sep) &&
    (exists j :: 0 <= j < i && p[j] != ExtSep && forall m :: j <= m < i ==> p[m] != Sep)
  }

  /** When the last dot follows the last separator and is preceded by a
      non-dot in the final component, that dot is an extension start. */
  lemma LastDotStartsExtension(p: string, sepIndex: int, dotIndex: int)
    requires sepIndex == RFind(p, Sep) && dotIndex == RFind(p, ExtSep)
    requires dotIndex > sepIndex && !AllDotsBetween(p, sepIndex + 1, dotIndex)
    ensures ExtensionStartsAt(p, dotIndex)
  {
    var j :| sepIndex + 1 <= j < dotIndex && p[j] != ExtSep;
    assert forall m :: j <= m < dotIndex ==> p[m] != Sep;
  }

  /** An extension start is the last dot, lies after the last separator, and
      has a non-dot between the two. */
  lemma ExtensionStartIsLastDot(p: string, i: int, sepIndex: int, dotIndex: int)
    requires sepIndex == RFind(p, Sep) && dotIndex == RFind(p, ExtSep)
    requires ExtensionStartsAt(p, i)
    ensures dotIndex == i && dotIndex > sepIndex && !AllDotsBetween(p, sepIndex + 1, dotIndex)
  {
    var j :| 0 <= j < i && p[j] != ExtSep && forall m :: j <= m < i ==> p[m] != Sep;
    assert sepIndex < j by {
      assert p[i] != Sep;
    }
  }

  /** A non-empty extension returned by SplitExt starts at an extension start. */
  lemma SplitExtFindsStart(p: string)
    requires SplitExt(p).1 != []
    ensures ExtensionStartsAt(p, |SplitExt(p).0|)
  {
    LastDotStartsExtension(p, RFind(p, Sep), RFind(p, ExtSep));
  }

  /** At an extension start, SplitExt splits there. */
  lemma SplitExtAtStart(p: string, i: int)
    requires ExtensionStartsAt(p, i)
    ensures SplitExt(p) == (p[..i], p[i..])
  {
    ExtensionStartIsLastDot(p, i, RFind(p, Sep), RFind(p, ExtSep));
  }

  /** SplitExt agrees with the declarative description: it returns a non-empty
      extension exactly when an extension start exists, and then splits there. */
  lemma SplitExtCharacterized(p: string)
    ensures SplitExt(p).1 != [] <==> exists i :: ExtensionStartsAt(p, i)
    ensures forall i :: ExtensionStartsAt(p, i) ==> SplitExt(p) == (p[..i], p[i..])
  {
    if SplitExt(p).1 != [] {
      SplitExtFindsStart(p);
    }
    forall i | ExtensionStartsAt(p, i) ensures SplitExt(p) == (p[..i], p[i..]) {
      SplitExtAtStart(p, i);
    }
  }

  /** A final path component "stem.ext" whose stem does not start with a dot
      splits into the stem and ".ext". */
  lemma SplitExtStemAndExtension(stem: string, ext: string)
    requires |stem| > 0 && stem[0] != ExtSep && Sep !in stem
    requires |ext| > 0 && ext[0] == ExtSep && ExtSep !in ext[1..] && Sep !in ext
    ensures SplitExt(stem + ext) == (stem, ext)
  {
    var p := stem + ext;
    forall k | |stem| < k < |p| ensures p[k] != ExtSep && p[k] != Sep {
      assert p[k] == ext[1..][k - |stem| - 1];
    }
    forall m | 0 <= m < |stem| ensures p[m] != Sep {
      assert p[m] == stem[m];
    }
    assert p[0] == stem[0];
    assert p[0] != ExtSep && forall m :: 0 <= m < |stem| ==> p[m] != Sep;
    assert ExtensionStartsAt(p, |stem|);
    SplitExtAtStart(p, |stem|);
    assert p[..|stem|] == stem && p[|stem|..] == ext;
  }
}
