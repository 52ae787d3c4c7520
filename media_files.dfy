/** Copying an uploaded media file into the project's storage: the name the
    copy receives and the path stored for it. The file system is reduced to
    the set of paths that name existing regular files, whether the target
    directory exists or could be created, and whether the copy succeeds; the
    clock is the `stamp` argument. */
module MediaFiles {
  import opened Options
  import opened Text
  import opened QtFormat
  import opened DatabaseUtils

  predicate IsSlash(c: char) { c == '/' }
  predicate IsDot(c: char) { c == '.' }

  /** `QFileInfo::fileName`: the text after the last '/'. */
  function FileNameOf(path: string): (r: string)
    ensures forall i :: 0 <= i < |r| ==> r[i] != '/'
    ensures EndsWith(path, r)
    ensures |r| < |path| ==> path[|path| - |r| - 1] == '/'
  {
    match LastIndex(path, IsSlash)
    case None => path
    case Some(i) => path[i + 1..]
  }

  /** The file name split at its last '.': `completeBaseName` and `suffix`. */
  function SplitName(name: string): (r: (string, string))
    ensures forall i :: 0 <= i < |r.1| ==> r.1[i] != '.'
    ensures name == r.0 || name == r.0 + "." + r.1
    ensures name == r.0 <==> r.1 == [] && forall i :: 0 <= i < |name| ==> name[i] != '.'
  {
    match LastIndex(name, IsDot)
    case None => (name, [])
    case Some(i) =>
      assert name == name[..i] + "." + name[i + 1..];
      (name[..i], name[i + 1..])
  }

  /** The extension the copy receives: the source's suffix, or "dat". */
  function ExtensionFor(localPath: string): (r: string)
    ensures r != []
    ensures SplitName(FileNameOf(localPath)).1 != [] ==> r == SplitName(FileNameOf(localPath)).1
  {
    var suffix := SplitName(FileNameOf(localPath)).1;
    if suffix == [] then "dat" else suffix
  }

  /** The base name the copy receives: the source's complete base name, or
      the caller's prefix. */
  function BaseNameFor(localPath: string, prefix: string): (r: string)
    ensures SplitName(FileNameOf(localPath)).0 != [] ==> r == SplitName(FileNameOf(localPath)).0
    ensures SplitName(FileNameOf(localPath)).0 == [] ==> r == prefix
  {
    var base := SplitName(FileNameOf(localPath)).0;
    if base == [] then prefix else base
  }

  /** The copy's name as the code assembles it: three `QString::arg` calls
      in a row on "%1_%2.%3". */
  function StoredNameAsWritten(base: string, stamp: string, ext: string): string {
    ArgChain3(base, stamp, ext)
  }

  /** The copy's name as intended: "{base}_{stamp}.{ext}". */
  function MediaFileName(base: string, stamp: string, ext: string): (r: string)
    ensures |r| == |base| + |stamp| + |ext| + 2
    ensures r[..|base|] == base && r[|base|] == '_'
    ensures r[|base| + 1..|base| + 1 + |stamp|] == stamp && r[|base| + 1 + |stamp|] == '.'
    ensures r[|base| + 2 + |stamp|..] == ext
  {
    base + "_" + stamp + "." + ext
  }

  /** The chained `arg` calls build the intended name whenever the base name
      holds no '%' (the stamp is all digits). */
  lemma StoredNameAgrees(base: string, stamp: string, ext: string)
    requires PercentFree(base) && AllDigits(stamp)
    ensures StoredNameAsWritten(base, stamp, ext) == MediaFileName(base, stamp, ext)
  {
    DigitsPercentFree(stamp);
    ArgChain3PercentFree(base, stamp, ext);
  }

  /** A base name ending in "%1" (a source file such as "clip%1.mp4") has
      the stamp substituted into it and the extension put in the stamp's
      place, and the name keeps a literal "%3" where the extension belongs. */
  lemma StoredNameMarkerInBase(p: string, stamp: string, ext: string)
    requires PercentFree(p) && AllDigits(stamp)
    ensures StoredNameAsWritten(p + "%1", stamp, ext) == p + stamp + "_" + ext + ".%3"
    ensures StoredNameAsWritten(p + "%1", stamp, ext) != MediaFileName(p + "%1", stamp, ext)
  {
    StoredNameMarkerChain(p + "%1", p, stamp, ext);
    MarkerNameDiffers(p, stamp, ext);
  }

  lemma StoredNameMarkerChain(base: string, p: string, stamp: string, ext: string)
    requires PercentFree(p) && AllDigits(stamp) && base == p + "%1"
    ensures StoredNameAsWritten(base, stamp, ext) == p + stamp + "_" + ext + ".%3"
  {
    DigitsPercentFree(stamp);
    var s1 := Arg("%1_%2.%3", base);
    assert s1 == p + "%1_%2.%3" by {
      ArgFirstOfThree(base);
    }
    StoredNameMarkerSecond(s1, p, stamp, ext);
  }

  /** The name the chain yields is not the intended one: either the
      character after `p` or the one two places later tells them apart. */
  lemma MarkerNameDiffers(p: string, stamp: string, ext: string)
    requires AllDigits(stamp)
    ensures p + stamp + "_" + ext + ".%3" != MediaFileName(p + "%1", stamp, ext)
  {
    var asWritten := p + stamp + "_" + ext + ".%3";
    var intended := MediaFileName(p + "%1", stamp, ext);
    if |ext| >= 2 || |stamp| >= 1 {
      assert intended[|p|] == '%';
      assert |stamp| >= 1 ==> asWritten[|p|] == stamp[0] && IsDigit(stamp[0]);
      assert |stamp| == 0 ==> asWritten[|p|] == '_';
    } else {
      assert |intended| == |p| + |ext| + 4 && |asWritten| == |p| + |ext| + 4;
      assert intended[|p| + 2] == '_' && asWritten[|p| + 2] != '_';
    }
  }

  lemma StoredNameMarkerSecond(s1: string, p: string, stamp: string, ext: string)
    requires PercentFree(p) && PercentFree(stamp)
    requires s1 == p + "%1_%2.%3"
    ensures Arg(Arg(s1, stamp), ext) == p + stamp + "_" + ext + ".%3"
  {
    var ps := p + stamp;
    assert PercentFree(ps);
    StoredNameMarkerFirst(s1, p, stamp);
    ArgSecondAfterFirst(Arg(s1, stamp), ps, ext);
  }

  lemma StoredNameMarkerFirst(s1: string, p: string, stamp: string)
    requires PercentFree(p)
    requires s1 == p + "%1_%2.%3"
    ensures Arg(s1, stamp) == p + stamp + "_%2.%3"
  {
    ArgAfterPercentFree(p, "%1_%2.%3", stamp);
    ArgFirstOfThree(stamp);
  }

  /** A stored copy keeps the extension it was given: its suffix is `ext`
      and its complete base name is "{base}_{stamp}". */
  lemma MediaFileNameSplits(base: string, stamp: string, ext: string)
    requires forall i :: 0 <= i < |ext| ==> ext[i] != '.'
    ensures SplitName(MediaFileName(base, stamp, ext)) == (base + "_" + stamp, ext)
  {
    var name := MediaFileName(base, stamp, ext);
    var k := |base| + 1 + |stamp|;
    assert name[k] == '.';
    assert forall i :: k < i < |name| ==> name[i] == ext[i - k - 1];
    var hit := LastIndex(name, IsDot);
    assert hit == Some(k);
    assert name[..k] == base + "_" + stamp;
  }

  /** Two copies made with different stamps of the same length get
      different names. */
  lemma StampsKeepNamesApart(base: string, s1: string, s2: string, ext: string)
    requires |s1| == |s2| && s1 != s2
    ensures MediaFileName(base, s1, ext) != MediaFileName(base, s2, ext)
  {
    var n1, n2 := MediaFileName(base, s1, ext), MediaFileName(base, s2, ext);
    assert n1[|base| + 1..|base| + 1 + |s1|] == s1;
    assert n2[|base| + 1..|base| + 1 + |s2|] == s2;
  }

  /** The local path behind the argument: a "file://" URL is read back to
      its path, anything else is taken as a path. */
  function LocalSourcePath(trimmed: string): string {
    LocalPathOf(trimmed)
  }

  /** A storage directory name below the project directory: letters only, as
      "videos" and "images" are. */
  predicate IsPlainName(sub: string) {
    sub != [] && forall i :: 0 <= i < |sub| ==> IsDriveLetter(sub[i])
  }

  /** Where the copy is written: `<root>/FinalProject/<sub>/<name>`. */
  function Destination(root: string, sub: string, name: string): string {
    JoinPath(JoinPath(JoinPath(root, "FinalProject"), sub), name)
  }

  /** `copyMediaFile` with its target directory given as `sub` below
      `<root>/FinalProject`; "" when there is nothing to copy or a step
      fails, otherwise the copy's path relative to `<root>/FinalProject`,
      its name built by the chained `arg` calls. */
  function CopyMediaFile(sourcePath: string, sub: string, prefix: string, root: string,
                         files: set<string>, dirReady: bool, stamp: string, copyOk: bool): (r: string)
    ensures r == [] <==>
              IsQtBlank(sourcePath) || LocalSourcePath(Trim(sourcePath)) !in files || !dirReady || !copyOk
    ensures r != [] ==>
              var local := LocalSourcePath(Trim(sourcePath));
              r == JoinPath(sub, StoredNameAsWritten(BaseNameFor(local, prefix), stamp, ExtensionFor(local)))
  {
    var trimmed := Trim(sourcePath);
    if trimmed == [] then []
    else
      var local := LocalSourcePath(trimmed);
      if local !in files || !dirReady then []
      else
        var name := StoredNameAsWritten(BaseNameFor(local, prefix), stamp, ExtensionFor(local));
        if !copyOk then [] else JoinPath(sub, name)
  }

  /** For a source whose base name holds no '%' and an all-digit stamp, the
      stored path is `sub/{base}_{stamp}.{ext}`: the base name, an
      underscore, the stamp, a dot and the source's extension. */
  lemma CopyMediaFileIntended(sourcePath: string, sub: string, prefix: string, root: string,
                              files: set<string>, dirReady: bool, stamp: string, copyOk: bool)
    requires PercentFree(BaseNameFor(LocalSourcePath(Trim(sourcePath)), prefix)) && AllDigits(stamp)
    requires CopyMediaFile(sourcePath, sub, prefix, root, files, dirReady, stamp, copyOk) != []
    ensures var local := LocalSourcePath(Trim(sourcePath));
            CopyMediaFile(sourcePath, sub, prefix, root, files, dirReady, stamp, copyOk)
              == JoinPath(sub, MediaFileName(BaseNameFor(local, prefix), stamp, ExtensionFor(local)))
  {
    var local := LocalSourcePath(Trim(sourcePath));
    StoredNameAgrees(BaseNameFor(local, prefix), stamp, ExtensionFor(local));
  }

  /** A name joined below a plain storage directory resolves, through
      `toAbsoluteMediaPath`, to that name in that directory of the project. */
  lemma PlainPathResolves(root: string, sub: string, name: string)
    requires IsPlainName(sub)
    ensures ToAbsoluteMediaPath(JoinPath(sub, name), root) == Destination(root, sub, name)
  {
    var rel := JoinPath(sub, name);
    assert rel == sub + "/" + name;
    assert rel[0] == sub[0];
    assert |sub| >= 2 ==> rel[1] == sub[1];
    assert |sub| == 1 ==> rel[1] == '/';
    assert !IsAbsolutePath(rel);
    JoinBelow(JoinPath(root, "FinalProject"), sub, name);
  }

  /** Joining "sub/name" under a directory is joining `sub`, then `name`. */
  lemma JoinBelow(dir: string, sub: string, name: string)
    requires sub != [] && sub[|sub| - 1] != '/'
    ensures JoinPath(dir, sub + "/" + name) == JoinPath(JoinPath(dir, sub), name)
  {
    var d := JoinPath(dir, sub);
    assert d[|d| - 1] == sub[|sub| - 1];
    if dir != [] && dir[|dir| - 1] == '/' {
      assert dir + (sub + "/" + name) == dir + sub + "/" + name;
    } else {
      assert dir + "/" + (sub + "/" + name) == dir + "/" + sub + "/" + name;
    }
  }

  /** The stored relative path resolves, through `toAbsoluteMediaPath`, to
      the file the copy was written to. */
  lemma StoredPathResolves(sourcePath: string, sub: string, prefix: string, root: string,
                           files: set<string>, dirReady: bool, stamp: string, copyOk: bool)
    requires IsPlainName(sub)
    requires CopyMediaFile(sourcePath, sub, prefix, root, files, dirReady, stamp, copyOk) != []
    ensures var local := LocalSourcePath(Trim(sourcePath));
            var name := StoredNameAsWritten(BaseNameFor(local, prefix), stamp, ExtensionFor(local));
            ToAbsoluteMediaPath(CopyMediaFile(sourcePath, sub, prefix, root, files, dirReady, stamp, copyOk), root)
              == Destination(root, sub, name)
  {
    var local := LocalSourcePath(Trim(sourcePath));
    PlainPathResolves(root, sub, StoredNameAsWritten(BaseNameFor(local, prefix), stamp, ExtensionFor(local)));
  }
}
