/** The sort engine of main.go: mySort, the three order functions (each a
    stable in-place sort of the slice with a comparator that may be flipped)
    and the flag logic that decides which passes run. The sort itself is
    sort.SliceStable, modelled in module StableSort. */
module Order {

  import opened GoStrings
  import opened Types
  import opened StableSort

  /** A sort key: Go's `constraints.Ordered` as used here, a string or an int64. */
  datatype Key = Text(s: string) | Number(n: int)

  /** Go's `<` on keys of one kind; numbers are put before strings only to make
      the order total (the two kinds are never compared in one pass). */
  predicate KeyLess(a: Key, b: Key) {
    match (a, b)
    case (Text(x), Text(y)) => GoStrings.Less(x, y)
    case (Number(x), Number(y)) => x < y
    case (Number(_), Text(_)) => true
    case (Text(_), Number(_)) => false
  }

  /** mySort: `i < j`, or `i > j` when reversed. */
  predicate MySort(i: Key, j: Key, isReverse: bool) {
    if isReverse then KeyLess(j, i) else KeyLess(i, j)
  }

  /** mySort is false for equal keys in either direction. */
  lemma MySortEqualKeys(k: Key, isReverse: bool)
    ensures !MySort(k, k, isReverse)
  {
    if k.Text? {
      LessIrreflexive(k.s);
    }
  }

  /** For a fixed direction mySort is a strict total order on keys: asymmetric,
      transitive, and two keys are unordered exactly when they are equal. */
  lemma MySortIsStrictOrder(i: Key, j: Key, k: Key, isReverse: bool)
    ensures MySort(i, j, isReverse) ==> !MySort(j, i, isReverse)
    ensures MySort(i, j, isReverse) && MySort(j, k, isReverse) ==> MySort(i, k, isReverse)
    ensures !MySort(i, j, isReverse) && !MySort(j, i, isReverse) <==> i == j
    ensures !MySort(i, j, isReverse) && !MySort(j, k, isReverse) ==> !MySort(i, k, isReverse)
  {
    MySortEqualKeys(i, isReverse);
    MySortEqualKeys(j, isReverse);
    if i.Text? && j.Text? {
      if i.s != j.s {
        LessTotal(i.s, j.s);
      }
      if Less(i.s, j.s) {
        LessAsymmetric(i.s, j.s);
      }
      if Less(j.s, i.s) {
        LessAsymmetric(j.s, i.s);
      }
    }
    if i.Text? && j.Text? && k.Text? {
      if Less(i.s, j.s) && Less(j.s, k.s) {
        LessTransitive(i.s, j.s, k.s);
      }
      if Less(k.s, j.s) && Less(j.s, i.s) {
        LessTransitive(k.s, j.s, i.s);
      }
      if j.s != k.s {
        LessTotal(j.s, k.s);
      }
      if i.s != k.s {
        LessTotal(i.s, k.s);
      }
      if Less(i.s, k.s) && Less(k.s, j.s) {
        LessTransitive(i.s, k.s, j.s);
      }
      if Less(j.s, k.s) && Less(k.s, i.s) {
        LessTransitive(j.s, k.s, i.s);
      }
    }
  }

  /** The three orderings the listing offers. */
  datatype SortKey = ByName | BySize | ByTime

  /** What each order function hands to mySort: the lower-cased name, the
      size, or the whole Unix seconds of the modification time. */
  function KeyOf(f: File, key: SortKey): (k: Key)
    ensures k.Text? <==> key == ByName
    ensures k.Text? ==> |k.s| == |f.name|
  {
    match key
    case ByName => Text(ToLower(f.name))
    case BySize => Number(f.size)
    case ByTime => Number(Unix(f.modificationTime))
  }

  /** The `less` function each order function gives to sort.SliceStable. */
  function LessBy(key: SortKey, isReverse: bool): (less: (File, File) -> bool)
  {
    (a: File, b: File) => MySort(KeyOf(a, key), KeyOf(b, key), isReverse)
  }

  /** Every order function's `less` is a strict weak order, so
      sort.SliceStable's contract applies, and two entries are tied exactly
      when their keys are equal. */
  lemma LessByIsStrictWeakOrder(key: SortKey, isReverse: bool)
    ensures StrictWeakOrder(LessBy(key, isReverse))
    ensures forall a, b :: Tied(a, b, LessBy(key, isReverse)) <==> KeyOf(a, key) == KeyOf(b, key)
  {
    var less := LessBy(key, isReverse);
    forall a, b, c
      ensures !less(a, a)
      ensures less(a, b) && less(b, c) ==> less(a, c)
      ensures !less(a, b) && !less(b, c) ==> !less(a, c)
      ensures Tied(a, b, less) <==> KeyOf(a, key) == KeyOf(b, key)
    {
      MySortEqualKeys(KeyOf(a, key), isReverse);
      MySortIsStrictOrder(KeyOf(a, key), KeyOf(b, key), KeyOf(c, key), isReverse);
    }
  }

  /** Entries whose modification times share the same whole second are tied
      for the time order, whatever their sub-second parts, so a stable pass
      keeps them in their earlier order. */
  lemma SameSecondIsTie(a: File, b: File, isReverse: bool)
    requires Unix(a.modificationTime) == Unix(b.modificationTime)
    ensures Tied(a, b, LessBy(ByTime, isReverse))
  {
    MySortEqualKeys(KeyOf(a, ByTime), isReverse);
  }

  /** Names that differ only in letter case are tied for the name order. */
  lemma SameLowerNameIsTie(a: File, b: File, isReverse: bool)
    requires ToLower(a.name) == ToLower(b.name)
    ensures Tied(a, b, LessBy(ByName, isReverse))
  {
    MySortEqualKeys(KeyOf(a, ByName), isReverse);
  }

  /** orderByName: sorts the slice in place by lower-cased name. */
  method OrderByName(files: array<File>, isReverse: bool)
    modifies files
    ensures files[..] == Sort(old(files[..]), LessBy(ByName, isReverse))
  {
    SliceStable(files, LessBy(ByName, isReverse));
  }

  /** orderBySize: sorts the slice in place by size. */
  method OrderBySize(files: array<File>, isReverse: bool)
    modifies files
    ensures files[..] == Sort(old(files[..]), LessBy(BySize, isReverse))
  {
    SliceStable(files, LessBy(BySize, isReverse));
  }

  /** orderByTime: sorts the slice in place by whole seconds of modification time. */
  method OrderByTime(files: array<File>, isReverse: bool)
    modifies files
    ensures files[..] == Sort(old(files[..]), LessBy(ByTime, isReverse))
  {
    SliceStable(files, LessBy(ByTime, isReverse));
  }

  /** The key that decides the final order: time beats size beats name. */
  function PrimaryKey(bySize: bool, byTime: bool): (k: SortKey)
    ensures k == ByTime <==> byTime
    ensures k == BySize <==> bySize && !byTime
    ensures k == ByName <==> !bySize && !byTime
  {
    if byTime then ByTime else if bySize then BySize else ByName
  }

  /** The passes the driver runs, in order, for the flags -s and -t. */
  function Passes(bySize: bool, byTime: bool): (p: seq<SortKey>)
    ensures ByName in p <==> !(bySize && byTime)
    ensures BySize in p <==> bySize && !byTime
    ensures ByTime in p <==> byTime
    ensures 1 <= |p| <= 2 && p[|p| - 1] == PrimaryKey(bySize, byTime)
    ensures |p| == 2 <==> bySize != byTime
    ensures |p| == 2 ==> p[0] == ByName
  {
    (if !bySize || !byTime then [ByName] else []) +
    (if bySize && !byTime then [BySize] else []) +
    (if byTime then [ByTime] else [])
  }

  /** The slice after running `passes` one after another. */
  function ApplyPasses(s: seq<File>, passes: seq<SortKey>, isReverse: bool): (r: seq<File>)
    ensures |r| == |s|
    decreases |passes|
  {
    if passes == [] then s
    else ApplyPasses(Sort(s, LessBy(passes[0], isReverse)), passes[1..], isReverse)
  }

  /** The sort-selection code of the driver. */
  method SortFiles(files: array<File>, bySize: bool, byTime: bool, isReverse: bool)
    modifies files
    ensures files[..] == ApplyPasses(old(files[..]), Passes(bySize, byTime), isReverse)
  {
    ghost var s := files[..];
    ghost var p := Passes(bySize, byTime);
    if !bySize || !byTime {
      OrderByName(files, isReverse);
    }
    if bySize && !byTime {
      OrderBySize(files, isReverse);
    }
    if byTime {
      OrderByTime(files, isReverse);
    }
    ApplyPassesUnfold(s, bySize, byTime, isReverse);
  }

  /** Running the passes is sorting by the primary key the order left by the
      preceding passes. */
  lemma ApplyPassesUnfold(s: seq<File>, bySize: bool, byTime: bool, isReverse: bool)
    ensures ApplyPasses(s, Passes(bySize, byTime), isReverse)
            == Sort(TieOrder(s, bySize, byTime, isReverse), LessBy(PrimaryKey(bySize, byTime), isReverse))
  {
    var p := Passes(bySize, byTime);
    var last := LessBy(PrimaryKey(bySize, byTime), isReverse);
    if |p| == 2 {
      var mid := Sort(s, LessBy(ByName, isReverse));
      assert ApplyPasses(s, p, isReverse) == ApplyPasses(mid, p[1..], isReverse);
      assert p[1..][0] == PrimaryKey(bySize, byTime) && p[1..][1..] == [];
      assert ApplyPasses(mid, p[1..], isReverse) == ApplyPasses(Sort(mid, last), [], isReverse);
    } else {
      assert p[0] == PrimaryKey(bySize, byTime) && p[1..] == [];
      assert ApplyPasses(s, p, isReverse) == ApplyPasses(Sort(s, last), [], isReverse);
    }
  }

  /** The entries' order before the last pass, which decides how the last
      pass's ties end up: the name order when a name pass precedes it,
      otherwise the order in which the directory was read. */
  function TieOrder(s: seq<File>, bySize: bool, byTime: bool, isReverse: bool): (t: seq<File>)
    ensures |t| == |s|
  {
    if bySize != byTime then Sort(s, LessBy(ByName, isReverse)) else s
  }

  /** The driver's sort is a permutation, ordered by the last key applied,
      with ties in the order of the preceding name pass (or the read order
      when only one pass runs). */
  lemma {:induction false} SortFilesResult(s: seq<File>, bySize: bool, byTime: bool, isReverse: bool)
    ensures var r := ApplyPasses(s, Passes(bySize, byTime), isReverse);
            var less := LessBy(PrimaryKey(bySize, byTime), isReverse);
            && multiset(r) == multiset(s)
            && Sorted(r, less)
            && forall y :: Ties(r, less, y) == Ties(TieOrder(s, bySize, byTime, isReverse), less, y)
  {
    var p := Passes(bySize, byTime);
    var less := LessBy(PrimaryKey(bySize, byTime), isReverse);
    var t := TieOrder(s, bySize, byTime, isReverse);
    LessByIsStrictWeakOrder(PrimaryKey(bySize, byTime), isReverse);
    if |p| == 2 {
      SortPermutes(s, LessBy(ByName, isReverse));
    }
    ApplyPassesUnfold(s, bySize, byTime, isReverse);
    SortPermutes(t, less);
    SortSorted(t, less);
    forall y {
      SortKeepsTies(t, less, y);
    }
  }

  /** With no two entries sharing a key, the reversed order function yields
      exactly the mirror image of the ascending one. */
  lemma ReverseMirrors(s: seq<File>, key: SortKey)
    requires forall i, j :: 0 <= i < j < |s| ==> KeyOf(s[i], key) != KeyOf(s[j], key)
    ensures Sort(s, LessBy(key, true)) == Reverse(Sort(s, LessBy(key, false)))
  {
    var asc, desc := LessBy(key, false), LessBy(key, true);
    LessByIsStrictWeakOrder(key, false);
    LessByIsStrictWeakOrder(key, true);
    forall a, b
      ensures desc(a, b) == asc(b, a)
    {
    }
    forall y, i, j | 0 <= i < j < |s|
      ensures !(Tied(s[i], y, asc) && Tied(s[j], y, asc))
    {
    }
    SortFlippedIsReverse(s, asc, desc);
  }

  /** Names compare case-insensitively: "a.txt" comes before "B.txt" in
      either read order, although 'B' < 'a' in code-point order. */
  lemma CaseInsensitiveNameOrder(a: File, b: File)
    requires a.name == "a.txt" && b.name == "B.txt"
    ensures Sort([b, a], LessBy(ByName, false)) == [a, b]
    ensures Sort([a, b], LessBy(ByName, false)) == [a, b]
  {
    var less := LessBy(ByName, false);
    var la, lb := ToLower(a.name), ToLower(b.name);
    assert la[0] == 'a' && lb[0] == 'b';
    assert less(a, b) && !less(b, a);
    assert [b, a][..1] == [b] && [a, b][..1] == [a];
    assert Sort([b], less) == [b] && Sort([a], less) == [a];
  }
}
