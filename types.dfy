/** The constants, the `file` record and the style table of ls_clone.go. */
module Types {

  import opened Wrappers

  /** Go's int64, the type of a file size and of Unix() seconds. */
  type Int64 = x: int | -0x8000_0000_0000_0000 <= x < 0x8000_0000_0000_0000

  /** The six file types, declared in the order of the `iota` block. */
  datatype FileType = Regular | Directory | Executable | Compress | Image | Link

  /** Every file type, in declaration order. */
  const AllTypes: seq<FileType> := [Regular, Directory, Executable, Compress, Image, Link]

  /** The integer constant the program stores for a file type (fileRegular = iota = 0, ...). */
  function Code(t: FileType): (c: int)
    ensures 0 <= c < |AllTypes| && AllTypes[c] == t
  {
    match t
    case Regular => 0
    case Directory => 1
    case Executable => 2
    case Compress => 3
    case Image => 4
    case Link => 5
  }

  /** The file type whose constant is `c`, if any. */
  function FromCode(c: int): (r: Option<FileType>)
    ensures r.Some? <==> 0 <= c < |AllTypes|
    ensures r.Some? ==> Code(r.value) == c
  {
    if 0 <= c < |AllTypes| then Some(AllTypes[c]) else None
  }

  /** The constants are 0..5 in declaration order, so regular is Go's zero value
      and every code names exactly one type. */
  lemma {:induction false} CodesAreIota()
    ensures forall i :: 0 <= i < |AllTypes| ==> Code(AllTypes[i]) == i
    ensures forall t :: 0 <= Code(t) < |AllTypes| && AllTypes[Code(t)] == t
    ensures Code(Regular) == 0
    ensures forall t, u :: Code(t) == Code(u) ==> t == u
  {
    forall t ensures 0 <= Code(t) < |AllTypes| && AllTypes[Code(t)] == t {
      match t
      case Regular =>
      case Directory =>
      case Executable =>
      case Compress =>
      case Image =>
      case Link =>
    }
  }

  // File extensions.
  const Exe: string := ".exe"
  const Deb: string := ".deb"
  const Zip: string := ".zip"
  const Gz: string := ".gz"
  const Tar: string := ".tar"
  const Rar: string := ".rar"
  const Png: string := ".png"
  const Jpg: string := ".jpg"
  const Gif: string := ".gif"

  /** The archive extensions, in the order isCompress tests them. */
  const CompressExtensions: seq<string> := [Zip, Gz, Tar, Rar, Deb]

  /** The image extensions, in the order isImage tests them. */
  const ImageExtensions: seq<string> := [Png, Jpg, Gif]

  /** A terminal colour; `NoColor` is the empty colour of the regular style. */
  datatype Color = NoColor | Blue | Green | Red | Magenta | Cyan | Yellow

  /** Go's time.Time reduced to what the listing compares: whole Unix seconds
      and the sub-second remainder. */
  datatype Instant = Instant(seconds: Int64, nanos: int)

  /** time.Time.Unix() */
  function Unix(t: Instant): (s: Int64) {
    t.seconds
  }

  /** One directory entry after its metadata has been read. */
  datatype File = File(
    name: string,
    fileType: FileType,
    isDir: bool,
    isHidden: bool,
    userName: string,
    groupName: string,
    size: Int64,
    modificationTime: Instant,
    mode: string)

  /** How a file type is printed. */
  datatype Style = Style(symbol: string, color: Color, icon: string)

  const RegularIcon: string := "\U{1F4C4}"
  const DirectoryIcon: string := "\U{1F4C2}"
  const ExecutableIcon: string := "\U{1F680}"
  const CompressIcon: string := "\U{1F4E6}"
  const ImageIcon: string := "\U{1F4F8}"
  const LinkIcon: string := "\U{1F517}"

  /** mapStyleByFileType: keyed by the integer file-type constants. */
  const StyleByFileType: map<int, Style> := map[
    Code(Regular) := Style("", NoColor, RegularIcon),
    Code(Directory) := Style("/", Blue, DirectoryIcon),
    Code(Executable) := Style("*", Green, ExecutableIcon),
    Code(Compress) := Style("", Red, CompressIcon),
    Code(Image) := Style("", Magenta, ImageIcon),
    Code(Link) := Style("", Cyan, LinkIcon)
  ]

  /** The lookup `mapStyleByFileType[file.fileType]`: every type code has an entry. */
  function StyleOf(t: FileType): (s: Style)
    ensures Code(t) in StyleByFileType && StyleByFileType[Code(t)] == s
  {
    StyleByFileType[Code(t)]
  }

  /** The table has exactly the six type codes as keys. */
  lemma TableKeysAreTheTypeCodes()
    ensures forall c :: c in StyleByFileType <==> FromCode(c).Some?
  {
  }

  /** Only directories get "/" and only executables get "*"; every other symbol is empty. */
  lemma {:induction false} SymbolOfStyle(t: FileType)
    ensures StyleOf(t).symbol == "/" <==> t == Directory
    ensures StyleOf(t).symbol == "*" <==> t == Executable
    ensures t != Directory && t != Executable ==> StyleOf(t).symbol == ""
  {
    match t
    case Regular =>
    case Directory =>
    case Executable =>
    case Compress =>
    case Image =>
    case Link =>
  }

  /** Only the regular style is uncoloured, and no two types share a colour. */
  lemma {:induction false} ColorOfStyle(t: FileType, u: FileType)
    ensures StyleOf(t).color == NoColor <==> t == Regular
    ensures t != u ==> StyleOf(t).color != StyleOf(u).color
  {
    match t
    case Regular =>
    case Directory =>
    case Executable =>
    case Compress =>
    case Image =>
    case Link =>
  }

  /** No two types share an icon. */
  lemma {:induction false} IconOfStyle(t: FileType, u: FileType)
    ensures t != u ==> StyleOf(t).icon != StyleOf(u).icon
  {
    match t
    case Regular =>
    case Directory =>
    case Executable =>
    case Compress =>
    case Image =>
    case Link =>
  }
}
