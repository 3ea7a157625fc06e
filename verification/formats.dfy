/** The extension check an image path must pass before it is imported. */
module Formats {
  import opened Text

  /** The accepted extensions, lower-case, each with its leading dot. */
  const SupportedFormats: seq<string> := [".jpg", ".jpeg", ".png", ".bmp", ".tiff", ".webp"]

  /** Every character of `p[lo..hi]` is a dot. */
  predicate AllDotsBetween(p: string, lo: int, hi: int)
    requires 0 <= lo <= hi <= |p|
  {
    forall i :: lo <= i < hi ==> p[i] == '.'
  }

  /** No path separator among `p[j..k]`. */
  predicate NoSlashBetween(p: string, j: int, k: int)
    requires 0 <= j <= k <= |p|
  {
    forall i :: j <= i < k ==> p[i] != '/'
  }

  /** `p[k..]` is the extension of `p`: it starts at a dot of the last path component, holds no
      further dot, and that component has a character other than a dot somewhere before it
      (so a name made of leading dots, such as `.png`, has no extension). */
  ghost predicate ExtensionAt(p: string, k: int)
  {
    && 0 <= k < |p|
    && p[k] == '.'
    && (forall i :: k < i < |p| ==> p[i] != '.' && p[i] != '/')
    && (exists j :: 0 <= j < k && p[j] != '.' && NoSlashBetween(p, j, k))
  }

  /** `os.path.splitext(p)` with '/' as the only separator: the extension starts at the last dot
      after the last separator, unless everything between them is dots. */
  function SplitExt(p: string): (r: (string, string))
    ensures r.0 + r.1 == p
    ensures r.1 != [] ==> ExtensionAt(p, |r.0|)
  {
    var sepIndex := RFind(p, '/');
    var dotIndex := RFind(p, '.');
    if dotIndex > sepIndex && !AllDotsBetween(p, sepIndex + 1, dotIndex) then
      LastDotIsExtension(p, sepIndex, dotIndex);
      assert p[..dotIndex] + p[dotIndex..] == p;
      (p[..dotIndex], p[dotIndex..])
    else
      (p, [])
  }

  /** The last dot after the last separator, with a non-dot between them, starts the extension. */
  lemma LastDotIsExtension(p: string, sepIndex: int, dotIndex: int)
    requires sepIndex == RFind(p, '/') && dotIndex == RFind(p, '.')
    requires sepIndex < dotIndex
    requires !AllDotsBetween(p, sepIndex + 1, dotIndex)
    ensures ExtensionAt(p, dotIndex)
  {
    var j :| sepIndex + 1 <= j < dotIndex && p[j] != '.';
    assert NoSlashBetween(p, j, dotIndex);
  }

  /** Wherever an extension exists, `SplitExt` finds exactly that one. */
  lemma ExtensionFound(p: string, k: int)
    requires ExtensionAt(p, k)
    ensures SplitExt(p) == (p[..k], p[k..])
  {
    var sepIndex := RFind(p, '/');
    var dotIndex := RFind(p, '.');
    assert dotIndex >= k;
    assert dotIndex == k;
    var j :| 0 <= j < k && p[j] != '.' && NoSlashBetween(p, j, k);
    assert forall i :: j <= i < |p| ==> p[i] != '/';
    assert sepIndex < j;
    assert !AllDotsBetween(p, sepIndex + 1, dotIndex);
  }

  /** A path has an extension exactly when `SplitExt` returns a non-empty one. */
  lemma SplitExtComplete(p: string)
    ensures SplitExt(p).1 != [] <==> exists k :: ExtensionAt(p, k)
    ensures forall k :: ExtensionAt(p, k) ==> SplitExt(p) == (p[..k], p[k..])
  {
    forall k | ExtensionAt(p, k)
      ensures SplitExt(p) == (p[..k], p[k..])
    {
      ExtensionFound(p, k);
    }
  }

  /** `check_image_format`: the lower-cased extension is one of the supported ones. */
  function CheckImageFormat(p: string): (ok: bool)
    ensures ok <==> exists k :: ExtensionAt(p, k) && Lower(p[k..]) in SupportedFormats
  {
    SplitExtComplete(p);
    Lower(SplitExt(p).1) in SupportedFormats
  }

  /** Lower-casing a path changes neither where its extension is nor whether it has one. */
  lemma ExtensionAtLower(p: string, k: int)
    ensures ExtensionAt(Lower(p), k) <==> ExtensionAt(p, k)
  {
    var q := Lower(p);
    if ExtensionAt(p, k) {
      var j :| 0 <= j < k && p[j] != '.' && NoSlashBetween(p, j, k);
      assert q[j] != '.' && NoSlashBetween(q, j, k);
    }
    if ExtensionAt(q, k) {
      var j :| 0 <= j < k && q[j] != '.' && NoSlashBetween(q, j, k);
      assert p[j] != '.' && NoSlashBetween(p, j, k);
    }
  }

  /** Lower-casing the path leaves the lower-cased text from `k` on unchanged. */
  lemma LowerSuffix(p: string, k: int)
    requires 0 <= k <= |p|
    ensures Lower(Lower(p)[k..]) == Lower(p[k..])
  {
  }

  /** The check ignores case: a path and its lower-cased form get the same verdict. */
  lemma CheckImageFormatIgnoresCase(p: string)
    ensures CheckImageFormat(Lower(p)) == CheckImageFormat(p)
  {
    var q := Lower(p);
    if CheckImageFormat(p) {
      var k :| ExtensionAt(p, k) && Lower(p[k..]) in SupportedFormats;
      ExtensionAtLower(p, k);
      LowerSuffix(p, k);
      assert ExtensionAt(q, k) && Lower(q[k..]) in SupportedFormats;
    }
    if CheckImageFormat(q) {
      var k :| ExtensionAt(q, k) && Lower(q[k..]) in SupportedFormats;
      ExtensionAtLower(p, k);
      LowerSuffix(p, k);
      assert ExtensionAt(p, k) && Lower(p[k..]) in SupportedFormats;
    }
  }

  /** A path with no extension, or whose name is only dots before its last dot, is refused. */
  lemma NoExtensionRefused(p: string)
    requires forall k :: !ExtensionAt(p, k)
    ensures !CheckImageFormat(p)
  {
  }

  /** An upper-case extension is accepted. */
  lemma AcceptsUpperCaseExtension()
    ensures CheckImageFormat("holiday.JPG")
  {
    var p := "holiday.JPG";
    assert NoSlashBetween(p, 0, 7);
    assert ExtensionAt(p, 7);
    assert Lower(p[7..]) == ".jpg";
  }

  /** A dot-file whose whole name is the extension is refused. */
  lemma RefusesDotFile()
    ensures !CheckImageFormat(".png")
  {
    var p := ".png";
    assert p[0] == '.' && p[1] == 'p' && p[2] == 'n' && p[3] == 'g';
    assert RFind(p, '/') == -1;
    assert RFind(p, '.') == 0;
    assert SplitExt(p) == (p, []);
  }
}
