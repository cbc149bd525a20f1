/** File-extension handling: `os.path.splitext` as posixpath implements it
    (used raw by `extract_features` in app.py) and `get_extension` of
    features.py, which strips the leading dots and lower-cases the result.
    Paths are POSIX paths: `/` is the only separator. */
module PathExt {

  /** `str.rfind(c)`: the index of the last occurrence of `c`, or -1. */
  function RFind(p: string, c: char): (r: int)
    ensures -1 <= r < |p|
    ensures r >= 0 ==> p[r] == c
    ensures forall k :: r < k < |p| ==> p[k] != c
  {
    if |p| == 0 then -1
    else if p[|p| - 1] == c then |p| - 1
    else RFind(p[..|p| - 1], c)
  }

  /** The leading-dot loop of `splitext`: whether some character of
      `p[lo..hi]` is not a dot. */
  function HasNonDot(p: string, lo: nat, hi: nat): (b: bool)
    requires hi <= |p|
    ensures b <==> exists k :: lo <= k < hi && p[k] != '.'
    decreases hi - lo
  {
    if lo >= hi then false
    else if p[lo] != '.' then true
    else HasNonDot(p, lo + 1, hi)
  }

  /** `os.path.splitext(p)`: splits at the last dot when it lies in the
      final component and is preceded there by a non-dot character;
      otherwise the extension is empty. */
  function SplitExt(p: string): (r: (string, string))
    ensures r.0 + r.1 == p
    ensures r.1 == [] || (r.1[0] == '.' && '.' !in r.1[1..] && '/' !in r.1)
  {
    var sepIndex := RFind(p, '/');
    var dotIndex := RFind(p, '.');
    if dotIndex > sepIndex && HasNonDot(p, sepIndex + 1, dotIndex) then
      assert forall k :: dotIndex < k < |p| ==> p[k] != '.' && p[k] != '/';
      assert p[..dotIndex] + p[dotIndex..] == p;
      (p[..dotIndex], p[dotIndex..])
    else
      (p, "")
  }

  /** `s.lstrip('.')`. */
  function LStripDots(s: string): (r: string)
    ensures |r| <= |s| && r == s[|s| - |r|..]
    ensures r == [] || r[0] != '.'
    ensures forall k :: 0 <= k < |s| - |r| ==> s[k] == '.'
  {
    if |s| > 0 && s[0] == '.' then LStripDots(s[1..]) else s
  }

  predicate IsUpperAscii(c: char) {
    'A' <= c <= 'Z'
  }

  /** `str.lower()` restricted to ASCII: A..Z map to a..z. */
  function LowerChar(c: char): char {
    if IsUpperAscii(c) then (c as int + 32) as char else c
  }

  /** `str.lower()` restricted to ASCII. */
  function AsciiLower(s: string): (r: string)
    ensures |r| == |s|
    ensures forall i :: 0 <= i < |r| ==> !IsUpperAscii(r[i])
    ensures forall i :: 0 <= i < |s| && !IsUpperAscii(s[i]) ==> r[i] == s[i]
    ensures forall i :: 0 <= i < |s| && IsUpperAscii(s[i]) ==> r[i] as int == s[i] as int + 32
  {
    if |s| == 0 then [] else [LowerChar(s[0])] + AsciiLower(s[1..])
  }

  /** `get_extension(path)`: the extension without its dot, lower-cased. */
  function GetExtension(p: string): (r: string)
    ensures '.' !in r
    ensures forall i :: 0 <= i < |r| ==> !IsUpperAscii(r[i])
  {
    var ext := SplitExt(p).1;
    var stripped := LStripDots(ext);
    assert '.' !in stripped by {
      if |ext| > 0 {
        assert stripped == ext[1..][|ext| - 1 - |stripped|..];
      }
    }
    AsciiLower(stripped)
  }

  /** The last occurrence is unique: an index holding `c` with no `c`
      after it (or -1 when `c` does not occur) is what `rfind` returns. */
  lemma RFindIs(p: string, c: char, i: int)
    requires -1 <= i < |p|
    requires i >= 0 ==> p[i] == c
    requires forall k :: i < k < |p| ==> p[k] != c
    ensures RFind(p, c) == i
  {
  }

  /** In `dir + comp`, with `dir` empty or ending in `/` and no `/` in
      `comp`, the last separator is the one closing `dir`. */
  lemma LastSeparatorEndsDir(dir: string, comp: string)
    requires dir == [] || dir[|dir| - 1] == '/'
    requires '/' !in comp
    ensures RFind(dir + comp, '/') == |dir| - 1
  {
    var p := dir + comp;
    var n := |dir|;
    assert forall k :: n <= k < |p| ==> p[k] == comp[k - n];
    assert n > 0 ==> p[n - 1] == '/';
    RFindIs(p, '/', n - 1);
  }

  /** A dot in the final component is the path's last dot, shifted. */
  lemma LastDotInComponent(dir: string, comp: string)
    requires RFind(comp, '.') >= 0
    ensures RFind(dir + comp, '.') == |dir| + RFind(comp, '.')
  {
    var p := dir + comp;
    var n := |dir|;
    assert forall k :: n <= k < |p| ==> p[k] == comp[k - n];
    RFindIs(p, '.', n + RFind(comp, '.'));
  }

  /** Without a dot in the final component, the path's last dot (if any)
      lies in `dir`. */
  lemma NoDotInComponent(dir: string, comp: string)
    requires RFind(comp, '.') < 0
    ensures RFind(dir + comp, '.') < |dir|
  {
    var p := dir + comp;
    var n := |dir|;
    assert forall k :: n <= k < |p| ==> p[k] == comp[k - n];
  }

  /** The leading-dot test does not see the directory part. */
  lemma HasNonDotShift(dir: string, comp: string, c: nat)
    requires c <= |comp|
    ensures HasNonDot(dir + comp, |dir|, |dir| + c) == HasNonDot(comp, 0, c)
  {
    var p := dir + comp;
    var n := |dir|;
    assert forall k :: n <= k < |p| ==> p[k] == comp[k - n];
    if HasNonDot(comp, 0, c) {
      var k :| 0 <= k < c && comp[k] != '.';
      assert p[n + k] != '.';
    }
  }

  /** Directory parts are ignored: a path ending in component `comp` has
      the extension `comp` alone has. */
  lemma SplitExtOfFinalComponent(dir: string, comp: string)
    requires dir == [] || dir[|dir| - 1] == '/'
    requires '/' !in comp
    ensures SplitExt(dir + comp).1 == SplitExt(comp).1
  {
    var p := dir + comp;
    var n := |dir|;
    LastSeparatorEndsDir(dir, comp);
    RFindIs(comp, '/', -1);
    var cdot := RFind(comp, '.');
    if cdot >= 0 {
      LastDotInComponent(dir, comp);
      HasNonDotShift(dir, comp, cdot);
      assert p[n + cdot..] == comp[cdot..];
    } else {
      NoDotInComponent(dir, comp);
    }
  }

  /** `get_extension` returns "" when the final component has no dot, or
      when its only dots are leading ones (as in `.bashrc` or `..x`). */
  lemma NoExtension(dir: string, comp: string)
    requires dir == [] || dir[|dir| - 1] == '/'
    requires '/' !in comp
    requires forall j, k :: 0 <= j < k < |comp| && comp[k] == '.' ==> comp[j] == '.'
    ensures GetExtension(dir + comp) == ""
  {
    SplitExtOfFinalComponent(dir, comp);
    var dot := RFind(comp, '.');
    if dot >= 0 {
      assert !HasNonDot(comp, 0, dot);
    }
  }

  /** The component's own split when its last dot, at `d`, has a non-dot
      character before it. */
  lemma ComponentExtension(comp: string, j: nat, d: nat)
    requires '/' !in comp
    requires j < d < |comp| && comp[j] != '.' && comp[d] == '.'
    requires '.' !in comp[d + 1..]
    ensures SplitExt(comp).1 == ['.'] + comp[d + 1..]
  {
    var rest := comp[d + 1..];
    assert forall k :: d < k < |comp| ==> comp[k] == rest[k - d - 1];
    RFindIs(comp, '.', d);
    RFindIs(comp, '/', -1);
    assert HasNonDot(comp, 0, d);
    assert comp[d..] == ['.'] + rest;
  }

  /** Otherwise `get_extension` returns the text after the last dot of the
      final component, lower-cased. */
  lemma ExtensionAfterLastDot(dir: string, comp: string, j: nat, d: nat)
    requires dir == [] || dir[|dir| - 1] == '/'
    requires '/' !in comp
    requires j < d < |comp| && comp[j] != '.' && comp[d] == '.'
    requires '.' !in comp[d + 1..]
    ensures GetExtension(dir + comp) == AsciiLower(comp[d + 1..])
  {
    SplitExtOfFinalComponent(dir, comp);
    ComponentExtension(comp, j, d);
    StripOneDot(comp[d + 1..]);
  }

  /** Stripping the dots off `.` + `rest`, where `rest` has no dot, leaves
      `rest`. */
  lemma StripOneDot(rest: string)
    requires '.' !in rest
    ensures LStripDots(['.'] + rest) == rest
  {
    assert (['.'] + rest)[1..] == rest;
    assert LStripDots(rest) == rest;
  }
}
