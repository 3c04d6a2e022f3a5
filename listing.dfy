/** The driver of main.go: the loop that keeps or drops each directory entry
    (hidden test, pattern match, metadata read), the record-count clamp, the
    rows printList emits, and `main` as a whole. Reading the directory, the
    hidden attribute, the metadata and the regular-expression engine are
    inputs. */
module Listing {

  import opened Wrappers
  import opened Types
  import opened Classify
  import opened Order

  /** What dir.Info() and fileinfo.GetUserAndGroup report for an entry. */
  datatype FileInfo = FileInfo(
    userName: string,
    groupName: string,
    size: Int64,
    modificationTime: Instant,
    mode: string)

  /** One entry of os.ReadDir: its name, its directory flag, the answer of
      isHidden for it, and its metadata (None when dir.Info() fails). */
  datatype DirEntry = DirEntry(name: string, isDir: bool, isHidden: bool, info: Option<FileInfo>)

  /** The conditions under which the program panics. */
  datatype Error =
    | ReadDirFailed(path: string)
    | InvalidPattern(pattern: string)
    | InfoFailed(name: string)
    | SliceOutOfRange(n: int)

  /** The filter flags: -a, -p, and the pattern compiled with the "(?i)"
      prefix (None when it is not a valid regular expression; otherwise the
      match test regexp.MatchString performs). */
  datatype Filter = Filter(all: bool, pattern: string, regex: Option<string -> bool>)

  /** getFile: the entry's metadata gathered into a file, then classified. */
  function GetFile(d: DirEntry, isWindows: bool): (r: Result<File, Error>)
    ensures r.Err? <==> d.info.None?
    ensures r.Err? ==> r.error == InfoFailed(d.name)
    ensures r.Ok? ==> r.value.name == d.name && r.value.isDir == d.isDir
                      && r.value.isHidden == d.isHidden && r.value.mode == d.info.value.mode
                      && r.value.size == d.info.value.size
                      && r.value.userName == d.info.value.userName
                      && r.value.groupName == d.info.value.groupName
                      && r.value.modificationTime == d.info.value.modificationTime
    ensures r.Ok? ==> SetFile(r.value, isWindows) == r.value
  {
    match d.info
    case None => Err(InfoFailed(d.name))
    case Some(info) =>
      var f := File(d.name, Regular, d.isDir, d.isHidden, info.userName, info.groupName,
                    info.size, info.modificationTime, info.mode);
      Ok(SetFile(f, isWindows))
  }

  /** The outcome of the loop body for one entry. */
  datatype Step = Skip | Keep(file: File) | Abort(error: Error)

  /** Whether an entry passes both filters: hidden entries only with -a, and
      with a non-empty pattern only names the pattern matches. */
  predicate PassesFilters(d: DirEntry, flt: Filter) {
    && !(d.isHidden && !flt.all)
    && (flt.pattern != "" ==> flt.regex.Some? && flt.regex.value(d.name))
  }

  /** The body of the loop over the directory entries. */
  function Admit(d: DirEntry, flt: Filter, isWindows: bool): (st: Step)
    ensures st.Keep? <==> PassesFilters(d, flt) && d.info.Some?
    ensures st.Keep? ==> GetFile(d, isWindows) == Ok(st.file)
    ensures st.Abort? <==> (!(d.isHidden && !flt.all) && flt.pattern != "" && flt.regex.None?)
                           || (PassesFilters(d, flt) && d.info.None?)
  {
    if d.isHidden && !flt.all then
      Skip
    else if flt.pattern != "" && flt.regex.None? then
      Abort(InvalidPattern(flt.pattern))
    else if flt.pattern != "" && !flt.regex.value(d.name) then
      Skip
    else
      match GetFile(d, isWindows)
      case Err(e) => Abort(e)
      case Ok(f) => Keep(f)
  }

  /** The files the loop collects from `dirs`, or the first error it meets. */
  function Collect(dirs: seq<DirEntry>, flt: Filter, isWindows: bool): (r: Result<seq<File>, Error>)
    ensures r.Ok? ==> |r.value| <= |dirs|
  {
    if dirs == [] then
      Ok([])
    else
      match Collect(dirs[..|dirs| - 1], flt, isWindows)
      case Err(e) => Err(e)
      case Ok(fs) =>
        match Admit(dirs[|dirs| - 1], flt, isWindows)
        case Skip => Ok(fs)
        case Keep(f) => Ok(fs + [f])
        case Abort(e) => Err(e)
  }

  /** Once the loop has failed on a prefix, the rest of the entries change nothing. */
  lemma {:induction false} CollectErrSticks(dirs: seq<DirEntry>, i: nat, flt: Filter, isWindows: bool)
    requires i <= |dirs| && Collect(dirs[..i], flt, isWindows).Err?
    ensures Collect(dirs, flt, isWindows) == Collect(dirs[..i], flt, isWindows)
    decreases |dirs| - i
  {
    if i < |dirs| {
      assert dirs[..i + 1][..i] == dirs[..i];
      CollectErrSticks(dirs, i + 1, flt, isWindows);
    } else {
      assert dirs[..i] == dirs;
    }
  }

  /** The loop of `main` that builds `fs` with append. */
  method CollectFiles(dirs: seq<DirEntry>, flt: Filter, isWindows: bool)
    returns (r: Result<seq<File>, Error>)
    ensures r == Collect(dirs, flt, isWindows)
  {
    var fs: seq<File> := [];
    var i := 0;
    while i < |dirs|
      invariant 0 <= i <= |dirs|
      invariant Collect(dirs[..i], flt, isWindows) == Ok(fs)
    {
      assert dirs[..i + 1][..i] == dirs[..i];
      match Admit(dirs[i], flt, isWindows) {
        case Skip =>
        case Keep(f) =>
          fs := fs + [f];
        case Abort(e) =>
          CollectErrSticks(dirs, i + 1, flt, isWindows);
          return Err(e);
      }
      i := i + 1;
    }
    assert dirs[..i] == dirs;
    return Ok(fs);
  }

  /** The entries that pass both filters, in read order. */
  function Survivors(dirs: seq<DirEntry>, flt: Filter): (r: seq<DirEntry>)
    ensures forall d :: d in r <==> d in dirs && PassesFilters(d, flt)
  {
    if dirs == [] then []
    else
      var init := dirs[..|dirs| - 1];
      var last := dirs[|dirs| - 1];
      assert dirs == init + [last];
      Survivors(init, flt) + (if PassesFilters(last, flt) then [last] else [])
  }

  /** The loop succeeds exactly when no entry aborts it, and then it holds the
      files of the surviving entries, one for one, in read order. */
  lemma {:induction false} CollectResult(dirs: seq<DirEntry>, flt: Filter, isWindows: bool)
    ensures Collect(dirs, flt, isWindows).Ok?
            <==> forall i :: 0 <= i < |dirs| ==> !Admit(dirs[i], flt, isWindows).Abort?
    ensures Collect(dirs, flt, isWindows).Ok? ==>
              var fs := Collect(dirs, flt, isWindows).value;
              var ds := Survivors(dirs, flt);
              |fs| == |ds| && forall i :: 0 <= i < |fs| ==> GetFile(ds[i], isWindows) == Ok(fs[i])
    decreases |dirs|
  {
    if dirs != [] {
      var init := dirs[..|dirs| - 1];
      CollectResult(init, flt, isWindows);
      assert forall i :: 0 <= i < |init| ==> init[i] == dirs[i];
    }
  }

  /** When the loop fails, it fails with the error of an entry that every
      earlier entry let through. */
  lemma {:induction false} CollectErrIsFirstAbort(dirs: seq<DirEntry>, flt: Filter, isWindows: bool)
    requires Collect(dirs, flt, isWindows).Err?
    ensures exists i :: 0 <= i < |dirs| && Collect(dirs[..i], flt, isWindows).Ok?
                        && Admit(dirs[i], flt, isWindows) == Abort(Collect(dirs, flt, isWindows).error)
    decreases |dirs|
  {
    var init := dirs[..|dirs| - 1];
    if Collect(init, flt, isWindows).Err? {
      CollectErrIsFirstAbort(init, flt, isWindows);
      var i :| 0 <= i < |init| && Collect(init[..i], flt, isWindows).Ok?
               && Admit(init[i], flt, isWindows) == Abort(Collect(init, flt, isWindows).error);
      assert init[..i] == dirs[..i];
    } else {
      assert dirs[..|dirs| - 1] == init;
    }
  }

  /** The sort passes only reorder the collected files. */
  lemma PassesPermute(fs: seq<File>, bySize: bool, byTime: bool, isReverse: bool)
    ensures multiset(ApplyPasses(fs, Passes(bySize, byTime), isReverse)) == multiset(fs)
  {
    SortFilesResult(fs, bySize, byTime, isReverse);
  }

  /** Without -a no hidden entry is collected; with a non-empty pattern every
      collected name matches it. */
  lemma FiltersHold(dirs: seq<DirEntry>, flt: Filter, isWindows: bool)
    requires Collect(dirs, flt, isWindows).Ok?
    ensures forall f :: f in Collect(dirs, flt, isWindows).value ==>
              (!flt.all ==> !f.isHidden) &&
              (flt.pattern != "" ==> flt.regex.Some? && flt.regex.value(f.name))
  {
    CollectResult(dirs, flt, isWindows);
    var fs := Collect(dirs, flt, isWindows).value;
    var ds := Survivors(dirs, flt);
    forall f | f in fs
      ensures (!flt.all ==> !f.isHidden) &&
              (flt.pattern != "" ==> flt.regex.Some? && flt.regex.value(f.name))
    {
      var i :| 0 <= i < |fs| && fs[i] == f;
      assert ds[i] in ds;
    }
  }

  /** With -a, no pattern and readable metadata, every entry is listed, in read order. */
  lemma {:induction false} NoFilterKeepsAll(dirs: seq<DirEntry>, flt: Filter, isWindows: bool)
    requires flt.all && flt.pattern == ""
    requires forall i :: 0 <= i < |dirs| ==> dirs[i].info.Some?
    ensures Collect(dirs, flt, isWindows).Ok?
    ensures |Collect(dirs, flt, isWindows).value| == |dirs|
    ensures forall i :: 0 <= i < |dirs| ==> Collect(dirs, flt, isWindows).value[i].name == dirs[i].name
    decreases |dirs|
  {
    if dirs != [] {
      var init := dirs[..|dirs| - 1];
      NoFilterKeepsAll(init, flt, isWindows);
    }
  }

  /** Every entry is dropped as hidden before the pattern is looked at. */
  predicate AllDroppedAsHidden(dirs: seq<DirEntry>, flt: Filter) {
    forall i :: 0 <= i < |dirs| ==> dirs[i].isHidden && !flt.all
  }

  lemma AllDroppedAsHiddenSnoc(dirs: seq<DirEntry>, flt: Filter)
    requires dirs != []
    ensures AllDroppedAsHidden(dirs, flt)
        <==> AllDroppedAsHidden(dirs[..|dirs| - 1], flt) && dirs[|dirs| - 1].isHidden && !flt.all
  {
    var init := dirs[..|dirs| - 1];
    if !AllDroppedAsHidden(dirs, flt) {
      var k :| 0 <= k < |dirs| && !(dirs[k].isHidden && !flt.all);
      if k < |init| {
        assert init[k] == dirs[k];
      }
    } else {
      forall i | 0 <= i < |init| ensures init[i].isHidden && !flt.all {
        assert init[i] == dirs[i];
      }
      assert dirs[|dirs| - 1].isHidden && !flt.all;
    }
  }

  /** An invalid pattern is only noticed when an entry reaches the match: the
      run fails iff some entry is not dropped as hidden first, and otherwise
      lists nothing. */
  lemma {:induction false} InvalidPatternWhenReached(dirs: seq<DirEntry>, flt: Filter, isWindows: bool)
    requires flt.pattern != "" && flt.regex.None?
    ensures Collect(dirs, flt, isWindows)
         == if AllDroppedAsHidden(dirs, flt) then Ok([]) else Err(InvalidPattern(flt.pattern))
    decreases |dirs|
  {
    if dirs != [] {
      var init, last := dirs[..|dirs| - 1], dirs[|dirs| - 1];
      InvalidPatternWhenReached(init, flt, isWindows);
      AllDroppedAsHiddenSnoc(dirs, flt);
      if last.isHidden && !flt.all {
        assert Admit(last, flt, isWindows) == Skip;
      } else {
        assert Admit(last, flt, isWindows) == Abort(InvalidPattern(flt.pattern));
      }
    }
  }

  /** The record count after `if n == 0 || n > len(fs) { n = len(fs) }`. */
  function ClampRecords(n: int, length: nat): (m: int)
    ensures n < 0 ==> m == n
    ensures 0 <= n ==> 0 <= m <= length
    ensures 0 < n <= length ==> m == n
    ensures length > 0 && n >= 0 ==> m > 0
  {
    if n == 0 || n > length then length else n
  }

  /** The slice expression `fs[:n]`, which panics outside 0..len(fs). */
  function Head(fs: seq<File>, n: int): (r: Result<seq<File>, Error>)
    ensures r.Ok? <==> 0 <= n <= |fs|
    ensures r.Ok? ==> r.value == fs[..n]
    ensures r.Err? ==> r.error == SliceOutOfRange(n)
  {
    if 0 <= n <= |fs| then Ok(fs[..n]) else Err(SliceOutOfRange(n))
  }

  /** A record count of 0 or above the length shows everything, a count in
      between shows exactly that many first entries, a negative one fails. */
  lemma Limit(fs: seq<File>, n: int)
    ensures n < 0 ==> Head(fs, ClampRecords(n, |fs|)) == Err(SliceOutOfRange(n))
    ensures n == 0 || n >= |fs| ==> Head(fs, ClampRecords(n, |fs|)) == Ok(fs)
    ensures 0 < n < |fs| ==> Head(fs, ClampRecords(n, |fs|)) == Ok(fs[..n])
  {
    assert fs[..|fs|] == fs;
  }

  /** A string as printed: unchanged (NoColor) or wrapped in a colour. */
  datatype Painted = Painted(s: string, color: Color)

  /** setColor: the five colours of its switch paint the name, any other
      colour leaves it unchanged. */
  function SetColor(name: string, color: Color): (t: Painted)
    ensures t.s == name
    ensures t.color == (if color in {Blue, Green, Red, Magenta, Cyan} then color else NoColor)
  {
    match color
    case Blue => Painted(name, Blue)
    case Green => Painted(name, Green)
    case Red => Painted(name, Red)
    case Magenta => Painted(name, Magenta)
    case Cyan => Painted(name, Cyan)
    case _ => Painted(name, NoColor)
  }

  /** markHidden: a yellow "!" for a hidden entry, otherwise nothing. */
  function MarkHidden(isHidden: bool): (t: Painted)
    ensures t.s == "" <==> !isHidden
  {
    if !isHidden then Painted("", NoColor) else Painted("!", Yellow)
  }

  /** The fields of one printed line, in the order of the format string. */
  datatype Row = Row(
    mode: string,
    userName: string,
    groupName: string,
    size: Int64,
    modificationTime: Instant,
    icon: string,
    name: Painted,
    symbol: string,
    hiddenMark: Painted)

  /** One line of printList. */
  function RowOf(f: File): (row: Row)
    ensures row.icon == StyleOf(f.fileType).icon && row.symbol == StyleOf(f.fileType).symbol
    ensures row.name == Painted(f.name, StyleOf(f.fileType).color)
    ensures row.hiddenMark.s == "" <==> !f.isHidden
    ensures && row.mode == f.mode && row.userName == f.userName && row.groupName == f.groupName
            && row.size == f.size && row.modificationTime == f.modificationTime
  {
    var style := StyleOf(f.fileType);
    Row(f.mode, f.userName, f.groupName, f.size, f.modificationTime, style.icon,
        SetColor(f.name, style.color), style.symbol, MarkHidden(f.isHidden))
  }

  /** Only regular files are printed without colour. */
  lemma UncoloredIffRegular(f: File)
    ensures RowOf(f).name.color == NoColor <==> f.fileType == Regular
  {
    ColorOfStyle(f.fileType, Regular);
  }

  /** printList: one row for each of the first `nRecords` files. */
  method PrintList(fs: seq<File>, nRecords: int) returns (r: Result<seq<Row>, Error>)
    ensures r.Ok? <==> 0 <= nRecords <= |fs|
    ensures r.Ok? ==> |r.value| == nRecords
                      && forall i :: 0 <= i < nRecords ==> r.value[i] == RowOf(fs[i])
    ensures r.Err? ==> r.error == SliceOutOfRange(nRecords)
  {
    if !(0 <= nRecords <= |fs|) {
      return Err(SliceOutOfRange(nRecords));
    }
    var shown := fs[..nRecords];
    var rows: seq<Row> := [];
    for i := 0 to |shown|
      invariant |rows| == i
      invariant forall k :: 0 <= k < i ==> rows[k] == RowOf(fs[k])
    {
      rows := rows + [RowOf(shown[i])];
    }
    return Ok(rows);
  }

  /** The directory `main` reads: the first argument, or "." when it is empty. */
  function TargetPath(arg: string): (path: string)
    ensures path != ""
    ensures arg == "" ==> path == "."
    ensures arg != "" ==> path == arg
  {
    if arg == "" then "." else arg
  }

  /** The rows of a sequence of files. */
  function Rows(fs: seq<File>): (rows: seq<Row>)
    ensures |rows| == |fs|
  {
    seq(|fs|, i requires 0 <= i < |fs| => RowOf(fs[i]))
  }

  /** The listing `main` prints, or the error it panics with. `readDir` stands
      for os.ReadDir. */
  function Listing(arg: string, readDir: string -> Option<seq<DirEntry>>, flt: Filter,
                   nRecords: int, bySize: bool, byTime: bool, isReverse: bool,
                   isWindows: bool): (r: Result<seq<Row>, Error>)
    ensures readDir(TargetPath(arg)).None? ==> r == Err(ReadDirFailed(TargetPath(arg)))
    ensures r.Ok? ==> |r.value| <= |readDir(TargetPath(arg)).value|
  {
    var path := TargetPath(arg);
    match readDir(path)
    case None => Err(ReadDirFailed(path))
    case Some(dirs) =>
      match Collect(dirs, flt, isWindows)
      case Err(e) => Err(e)
      case Ok(fs) =>
        var sorted := ApplyPasses(fs, Passes(bySize, byTime), isReverse);
        match Head(sorted, ClampRecords(nRecords, |sorted|))
        case Err(e) => Err(e)
        case Ok(shown) => Ok(Rows(shown))
  }

  /** What PrintList prints is `Rows` of the shown prefix. */
  lemma PrintedRows(fs: seq<File>, n: int, rows: seq<Row>)
    requires 0 <= n <= |fs| && |rows| == n
    requires forall i :: 0 <= i < n ==> rows[i] == RowOf(fs[i])
    ensures rows == Rows(fs[..n])
  {
  }

  /** main */
  method Run(arg: string, readDir: string -> Option<seq<DirEntry>>, flt: Filter,
             nRecords: int, bySize: bool, byTime: bool, isReverse: bool, isWindows: bool)
    returns (r: Result<seq<Row>, Error>)
    ensures r == Listing(arg, readDir, flt, nRecords, bySize, byTime, isReverse, isWindows)
  {
    var path := TargetPath(arg);
    var read := readDir(path);
    if read.None? {
      return Err(ReadDirFailed(path));
    }
    var collected := CollectFiles(read.value, flt, isWindows);
    if collected.Err? {
      return Err(collected.error);
    }
    var fs := collected.value;
    var files := new File[|fs|](i requires 0 <= i < |fs| => fs[i]);
    assert files[..] == fs;
    SortFiles(files, bySize, byTime, isReverse);
    var n := nRecords;
    if n == 0 || n > files.Length {
      n := files.Length;
    }
    var sorted := files[..];
    r := PrintList(sorted, n);
    if r.Ok? {
      PrintedRows(sorted, n, r.value);
    }
  }

  /** The rows of a prefix of a reordering of `fs` are rows of files of `fs`. */
  lemma RowsOfReordered(fs: seq<File>, sorted: seq<File>, n: int)
    requires multiset(sorted) == multiset(fs) && 0 <= n <= |sorted|
    ensures forall row :: row in Rows(sorted[..n])
              ==> exists f :: f in fs && row == RowOf(f) && (row.hiddenMark.s != "" <==> f.isHidden)
    ensures (forall f :: f in fs ==> !f.isHidden) ==> forall row :: row in Rows(sorted[..n]) ==> row.hiddenMark.s == ""
  {
    var rows := Rows(sorted[..n]);
    forall row | row in rows
      ensures exists f :: f in fs && row == RowOf(f) && (row.hiddenMark.s != "" <==> f.isHidden)
    {
      var i :| 0 <= i < |rows| && rows[i] == row;
      assert sorted[i] in multiset(sorted);
      assert row == RowOf(sorted[i]);
    }
  }

  /** Every printed row is the row of a collected file and carries the
      hidden marker iff that file is hidden, with or without -a; without -a
      no hidden entry is collected, so no row carries it. */
  lemma ListingHiddenMarks(arg: string, readDir: string -> Option<seq<DirEntry>>, flt: Filter,
                           nRecords: int, bySize: bool, byTime: bool, isReverse: bool,
                           isWindows: bool)
    requires Listing(arg, readDir, flt, nRecords, bySize, byTime, isReverse, isWindows).Ok?
    ensures forall row :: row in Listing(arg, readDir, flt, nRecords, bySize, byTime, isReverse, isWindows).value
              ==> exists f :: && f in Collect(readDir(TargetPath(arg)).value, flt, isWindows).value
                              && row == RowOf(f)
                              && (row.hiddenMark.s != "" <==> f.isHidden)
    ensures !flt.all ==>
              forall row :: row in Listing(arg, readDir, flt, nRecords, bySize, byTime, isReverse, isWindows).value
                ==> row.hiddenMark.s == ""
  {
    var dirs := readDir(TargetPath(arg)).value;
    var fs := Collect(dirs, flt, isWindows).value;
    var sorted := ApplyPasses(fs, Passes(bySize, byTime), isReverse);
    PassesPermute(fs, bySize, byTime, isReverse);
    FiltersHold(dirs, flt, isWindows);
    RowsOfReordered(fs, sorted, ClampRecords(nRecords, |sorted|));
  }

  /** The number of rows is the clamped record count of the collected files. */
  lemma ListingLength(arg: string, readDir: string -> Option<seq<DirEntry>>, flt: Filter,
                      nRecords: int, bySize: bool, byTime: bool, isReverse: bool,
                      isWindows: bool)
    requires readDir(TargetPath(arg)).Some?
    requires Collect(readDir(TargetPath(arg)).value, flt, isWindows).Ok?
    ensures var m := |Collect(readDir(TargetPath(arg)).value, flt, isWindows).value|;
            var r := Listing(arg, readDir, flt, nRecords, bySize, byTime, isReverse, isWindows);
            && (r.Ok? <==> nRecords >= 0)
            && (r.Ok? ==> |r.value| == if nRecords == 0 || nRecords > m then m else nRecords)
  {
    var fs := Collect(readDir(TargetPath(arg)).value, flt, isWindows).value;
    SortFilesResult(fs, bySize, byTime, isReverse);
    var sorted := ApplyPasses(fs, Passes(bySize, byTime), isReverse);
    assert |sorted| == |fs| by {
      assert |multiset(sorted)| == |multiset(fs)|;
    }
  }
}
