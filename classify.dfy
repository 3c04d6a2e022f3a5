/** Classification of an entry into one file type (setFile and its
    predicates in main.go). The host operating system is the flag
    `isWindows` (runtime.GOOS == "windows"). */
module Classify {

  import opened Wrappers
  import opened GoStrings
  import opened Types

  /** isLink: the upper-cased mode string starts with "L". */
  predicate IsLink(f: File) {
    HasPrefix(ToUpper(f.mode), "L")
  }

  /** isExec: on Windows a ".exe" name, elsewhere an 'x' anywhere in the mode. */
  predicate IsExec(f: File, isWindows: bool) {
    if isWindows then HasSuffix(f.name, Exe) else Contains(f.mode, "x")
  }

  /** isCompress: the name ends with an archive extension (case-sensitive). */
  predicate IsCompress(f: File) {
    HasSuffix(f.name, Zip) ||
    HasSuffix(f.name, Gz) ||
    HasSuffix(f.name, Tar) ||
    HasSuffix(f.name, Rar) ||
    HasSuffix(f.name, Deb)
  }

  /** isImage: the name ends with an image extension (case-sensitive). */
  predicate IsImage(f: File) {
    HasSuffix(f.name, Png) ||
    HasSuffix(f.name, Jpg) ||
    HasSuffix(f.name, Gif)
  }

  /** setFile: the first matching case of the switch decides the type; no
      other field changes. */
  function SetFile(f: File, isWindows: bool): (g: File)
    ensures g == f.(fileType := g.fileType)
    ensures g.fileType == Link <==> IsLink(f)
    ensures g.fileType == Directory <==> !IsLink(f) && f.isDir
    ensures g.fileType == Executable <==> !IsLink(f) && !f.isDir && IsExec(f, isWindows)
    ensures g.fileType == Compress <==>
              !IsLink(f) && !f.isDir && !IsExec(f, isWindows) && IsCompress(f)
    ensures g.fileType == Image <==>
              !IsLink(f) && !f.isDir && !IsExec(f, isWindows) && !IsCompress(f) && IsImage(f)
    ensures g.fileType == Regular <==>
              !IsLink(f) && !f.isDir && !IsExec(f, isWindows) && !IsCompress(f) && !IsImage(f)
  {
    var t :=
      if IsLink(f) then Link
      else if f.isDir then Directory
      else if IsExec(f, isWindows) then Executable
      else if IsCompress(f) then Compress
      else if IsImage(f) then Image
      else Regular;
    f.(fileType := t)
  }

  /** The order in which the cases of setFile are tried. */
  const Priority: seq<FileType> := [Link, Directory, Executable, Compress, Image, Regular]

  /** Whether the case for `t` in setFile's switch holds of `f`, on its own. */
  predicate Matches(f: File, t: FileType, isWindows: bool) {
    match t
    case Link => IsLink(f)
    case Directory => f.isDir
    case Executable => IsExec(f, isWindows)
    case Compress => IsCompress(f)
    case Image => IsImage(f)
    case Regular => true
  }

  /** The first type of `candidates` whose own test holds of `f` (reference
      reading of a first-match switch). */
  function FirstMatching(f: File, candidates: seq<FileType>, isWindows: bool): (r: Option<FileType>)
    ensures r.Some? ==> r.value in candidates && Matches(f, r.value, isWindows)
    ensures r.None? ==> forall t :: t in candidates ==> !Matches(f, t, isWindows)
  {
    if candidates == [] then None
    else if Matches(f, candidates[0], isWindows) then Some(candidates[0])
    else FirstMatching(f, candidates[1..], isWindows)
  }

  /** What FirstMatching returns is the first candidate whose test holds:
      every candidate before it fails its test. */
  lemma {:induction false} FirstMatchingIsFirst(f: File, candidates: seq<FileType>, isWindows: bool)
    ensures FirstMatching(f, candidates, isWindows).Some? ==>
              exists k :: && 0 <= k < |candidates|
                          && candidates[k] == FirstMatching(f, candidates, isWindows).value
                          && forall j :: 0 <= j < k ==> !Matches(f, candidates[j], isWindows)
    decreases |candidates|
  {
    if candidates != [] && !Matches(f, candidates[0], isWindows) {
      var rest := candidates[1..];
      FirstMatchingIsFirst(f, rest, isWindows);
      if FirstMatching(f, rest, isWindows).Some? {
        var k :| && 0 <= k < |rest| && rest[k] == FirstMatching(f, rest, isWindows).value
                 && forall j :: 0 <= j < k ==> !Matches(f, rest[j], isWindows);
        assert candidates[k + 1] == rest[k];
        forall j | 0 <= j < k + 1
          ensures !Matches(f, candidates[j], isWindows)
        {
          if j > 0 {
            assert candidates[j] == rest[j - 1];
          }
        }
      }
    } else if candidates != [] {
      assert candidates[0] == FirstMatching(f, candidates, isWindows).value;
    }
  }

  /** The type setFile assigns is the first type of the priority list whose
      own test holds. */
  lemma {:induction false} SetFileIsFirstMatch(f: File, isWindows: bool)
    ensures FirstMatching(f, Priority, isWindows) == Some(SetFile(f, isWindows).fileType)
  {
    var p := Priority;
    assert p[1..] == [Directory, Executable, Compress, Image, Regular];
    assert p[2..] == p[1..][1..] == [Executable, Compress, Image, Regular];
    assert p[3..] == p[2..][1..] == [Compress, Image, Regular];
    assert p[4..] == p[3..][1..] == [Image, Regular];
    assert p[5..] == p[4..][1..] == [Regular];
    if !IsLink(f) {
      assert FirstMatching(f, p, isWindows) == FirstMatching(f, p[1..], isWindows);
      if !f.isDir {
        assert FirstMatching(f, p[1..], isWindows) == FirstMatching(f, p[2..], isWindows);
        if !IsExec(f, isWindows) {
          assert FirstMatching(f, p[2..], isWindows) == FirstMatching(f, p[3..], isWindows);
          if !IsCompress(f) {
            assert FirstMatching(f, p[3..], isWindows) == FirstMatching(f, p[4..], isWindows);
            if !IsImage(f) {
              assert FirstMatching(f, p[4..], isWindows) == FirstMatching(f, p[5..], isWindows);
            }
          }
        }
      }
    }
  }

  /** A symbolic link is a link even when the entry reports itself as a directory. */
  lemma LinkBeatsDirectory(f: File, isWindows: bool)
    requires IsLink(f) && f.isDir
    ensures SetFile(f, isWindows).fileType == Link
  {
  }

  /** A directory is never executable, although its mode ("drwxr-xr-x") contains 'x'. */
  lemma DirectoryIsNotExecutable(f: File, isWindows: bool)
    requires f.isDir && !IsLink(f)
    ensures SetFile(f, isWindows).fileType == Directory
    ensures SetFile(f, isWindows).fileType != Executable
  {
  }

  /** isLink holds exactly when the mode starts with 'L' or 'l'. */
  lemma {:induction false} IsLinkIff(f: File)
    ensures IsLink(f) <==> |f.mode| > 0 && (f.mode[0] == 'L' || f.mode[0] == 'l')
  {
    var u := ToUpper(f.mode);
    if |f.mode| > 0 {
      assert u[..1] == [u[0]];
    }
  }

  /** isExec on each platform, in terms of the raw name and mode. */
  lemma {:induction false} IsExecIff(f: File, isWindows: bool)
    ensures isWindows ==>
              (IsExec(f, isWindows) <==> |f.name| >= 4 && f.name[|f.name| - 4..] == ".exe")
    ensures !isWindows ==>
              (IsExec(f, isWindows) <==> exists i :: 0 <= i < |f.mode| && f.mode[i] == 'x')
  {
    if !isWindows {
      if IsExec(f, isWindows) {
        var i :| 0 <= i <= |f.mode| && HasPrefix(f.mode[i..], "x");
        assert f.mode[i..][0] == f.mode[i];
      }
      if exists i :: 0 <= i < |f.mode| && f.mode[i] == 'x' {
        var i :| 0 <= i < |f.mode| && f.mode[i] == 'x';
        assert f.mode[i..][..1] == "x";
        assert HasPrefix(f.mode[i..], "x");
      }
    }
  }

  /** isCompress is the membership of the name's suffix in the archive extensions. */
  lemma IsCompressIff(f: File)
    ensures IsCompress(f) <==> exists e :: e in CompressExtensions && HasSuffix(f.name, e)
  {
  }

  /** isImage is the membership of the name's suffix in the image extensions. */
  lemma IsImageIff(f: File)
    ensures IsImage(f) <==> exists e :: e in ImageExtensions && HasSuffix(f.name, e)
  {
  }

  /** "a.tar.gz" is an archive (".gz" matches); "a.PNG" is not an image (case-sensitive). */
  lemma SuffixTestsAreCaseSensitive(f: File, g: File)
    requires f.name == "a.tar.gz" && g.name == "a.PNG"
    ensures IsCompress(f)
    ensures !IsImage(g)
  {
    assert f.name[|f.name| - 3..] == Gz;
    assert g.name[|g.name| - 4..] == ".PNG";
  }
}
