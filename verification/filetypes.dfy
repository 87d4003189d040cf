/** `FileType`: the search filter's file categories, the extension of a file
    name, the classification of a file by its extension and the per-category
    extension test. */
module FileTypes {
  import opened JStrings
  import opened Wrappers

  datatype FileType = All | Folder | Text | Image | Document | Video | Audio

  /** The constants in declaration order (`values()`). */
  const Values: seq<FileType> := [All, Folder, Text, Image, Document, Video, Audio]

  function DisplayName(t: FileType): JString
  {
    match t
    case All => Lit("כל הקבצים")
    case Folder => Lit("תיקיות")
    case Text => Lit("קבצי טקסט")
    case Image => Lit("תמונות")
    case Document => Lit("מסמכים")
    case Video => Lit("וידאו")
    case Audio => Lit("אודיו")
  }

  /** The loop of `fromDisplayName` over `ts`. */
  function FindByName(ts: seq<FileType>, name: JString): (r: Option<FileType>)
    ensures r.Some? ==> r.value in ts && DisplayName(r.value) == name
    ensures r.None? <==> forall i :: 0 <= i < |ts| ==> DisplayName(ts[i]) != name
  {
    if |ts| == 0 then None
    else if DisplayName(ts[0]) == name then Some(ts[0])
    else
      var r := FindByName(ts[1..], name);
      assert forall i :: 1 <= i < |ts| ==> ts[i] == ts[1..][i - 1];
      r
  }

  /** `fromDisplayName`: the constant with that display name, `None` (null)
      when there is none. */
  function FromDisplayName(name: JString): (r: Option<FileType>)
    ensures r.Some? ==> DisplayName(r.value) == name
    ensures r.None? <==> forall t: FileType :: DisplayName(t) != name
  {
    ValuesCover(name);
    FindByName(Values, name)
  }

  /** Every constant is among `Values`. */
  lemma ValuesCover(name: JString)
    ensures (forall i :: 0 <= i < |Values| ==> DisplayName(Values[i]) != name) ==>
      forall t: FileType :: DisplayName(t) != name
  {
    if forall i :: 0 <= i < |Values| ==> DisplayName(Values[i]) != name {
      forall t: FileType ensures DisplayName(t) != name {
        assert Values[ValueIndex(t)] == t;
      }
    }
  }

  function ValueIndex(t: FileType): (i: int)
    ensures 0 <= i < |Values| && Values[i] == t
  {
    match t
    case All => 0
    case Folder => 1
    case Text => 2
    case Image => 3
    case Document => 4
    case Video => 5
    case Audio => 6
  }

  /** No two constants share a display name. */
  lemma DisplayNamesDistinct(t: FileType, u: FileType)
    requires t != u
    ensures DisplayName(t) != DisplayName(u)
  {
    var a := DisplayName(t);
    var b := DisplayName(u);
    if |a| == |b| {
      assert a[0] != b[0] || a[1] != b[1];
    }
  }

  /** Every constant is found again from its display name. */
  lemma FromDisplayNameRoundTrip(t: FileType)
    ensures FromDisplayName(DisplayName(t)) == Some(t)
  {
    var r := FromDisplayName(DisplayName(t));
    if r.Some? && r.value != t {
      DisplayNamesDistinct(r.value, t);
    }
  }

  /** An unknown name gives nothing. */
  lemma UnknownDisplayName()
    ensures FromDisplayName(Lit("pdf")) == None
  {
    forall t: FileType ensures DisplayName(t) != Lit("pdf") {
      assert DisplayName(t)[0] != Lit("pdf")[0];
    }
  }

  /** `getFileExtension`: the text after the last '.', or "" when there is no
      '.', the '.' is the first character, or it is the last. */
  function Extension(fileName: JString): (r: JString)
    ensures var i := LastIndexOf(fileName, DOT);
      if 0 < i < |fileName| - 1 then r == fileName[i + 1..] && |r| > 0 && DOT !in r else r == []
  {
    var i := LastIndexOf(fileName, DOT);
    if 0 < i < |fileName| - 1 then
      var r := fileName[i + 1..];
      assert forall j :: 0 <= j < |r| ==> r[j] == fileName[i + 1 + j];
      r
    else []
  }

  /** `toLowerCase` on the ASCII letters. */
  function ToLower(s: JString): (r: JString)
    ensures |r| == |s|
    ensures forall i :: 0 <= i < |s| ==> r[i] == if 'A' as int <= s[i] <= 'Z' as int then s[i] + 32 else s[i]
  {
    seq(|s|, i requires 0 <= i < |s| => if 'A' as int <= s[i] <= 'Z' as int then s[i] + 32 else s[i])
  }

  /** The code units as Dafny characters, so that they can be compared with
      the pattern alternatives; a lone surrogate, which no alternative
      contains, becomes U+FFFD. */
  function AsText(s: JString): (r: string)
    ensures |r| == |s|
    ensures forall i :: 0 <= i < |s| && !(0xD800 <= s[i] <= 0xDFFF) ==> r[i] as int == s[i]
  {
    seq(|s|, i requires 0 <= i < |s| => if 0xD800 <= s[i] <= 0xDFFF then '\U{FFFD}' else s[i] as char)
  }

  /** The lower-cased extension that the patterns are matched against. */
  function ExtensionKey(fileName: JString): string
  {
    AsText(ToLower(Extension(fileName)))
  }

  /** The alternatives of the classification patterns. */
  const TextExtensions: set<string> := {"txt", "csv", "rtf", "log", "md", "json", "xml", "html", "css", "js",
                                         "py", "java", "c", "cpp", "h", "doc", "docx", "xlsx", "xls", "odt"}
  const ImageExtensions: set<string> := {"jpg", "jpeg", "png", "gif", "bmp", "svg", "webp", "tiff", "ico", "raw"}
  const DocumentExtensions: set<string> := {"pdf", "doc", "docx", "ppt", "pptx", "xls", "xlsx", "odt", "ods", "odp"}
  const VideoExtensions: set<string> := {"mp4", "avi", "mov", "wmv", "flv", "mkv", "webm", "m4v", "3gp", "mpg", "mpeg"}
  const AudioExtensions: set<string> := {"mp3", "wav", "flac", "aac", "ogg", "wma", "m4a", "opus"}

  /** Classification of an extension key: the first category, in the order
      text, image, document, video, audio, whose pattern matches, and text
      when none does. */
  function Classify(ext: string): (r: FileType)
    ensures r in {Text, Image, Document, Video, Audio}
    ensures ext in TextExtensions ==> r == Text
    ensures r == Image <==> ext !in TextExtensions && ext in ImageExtensions
    ensures r == Document <==> ext !in TextExtensions && ext !in ImageExtensions && ext in DocumentExtensions
    ensures r == Video <==> ext !in TextExtensions && ext !in ImageExtensions && ext !in DocumentExtensions &&
                            ext in VideoExtensions
    ensures r == Audio <==> ext !in TextExtensions && ext !in ImageExtensions && ext !in DocumentExtensions &&
                            ext !in VideoExtensions && ext in AudioExtensions
  {
    if ext in TextExtensions then Text
    else if ext in ImageExtensions then Image
    else if ext in DocumentExtensions then Document
    else if ext in VideoExtensions then Video
    else if ext in AudioExtensions then Audio
    else Text
  }

  /** `getFileType`: a directory is a folder, any other file is classified
      by its extension, and the result is never "all". */
  function GetFileType(isDirectory: bool, fileName: JString): (r: FileType)
    ensures r != All
    ensures r == Folder <==> isDirectory
    ensures !isDirectory ==> r == Classify(ExtensionKey(fileName))
  {
    if isDirectory then Folder else Classify(ExtensionKey(fileName))
  }

  /** The alternatives of the patterns in `matches`. */
  const TextMatches: set<string> := {"txt", "csv", "doc", "docx", "xlsx", "xls", "rtf", "odt"}
  const ImageMatches: set<string> := {"jpg", "jpeg", "png", "gif", "bmp", "svg", "webp", "tiff", "ico"}
  const DocumentMatches: set<string> := {"pdf", "doc", "docx", "ppt", "pptx", "xls", "xlsx", "odt", "ods", "odp"}
  const VideoMatches: set<string> := {"mp4", "avi", "mov", "wmv", "flv", "mkv", "webm", "m4v", "3gp"}
  const AudioMatches: set<string> := {"mp3", "wav", "flac", "aac", "ogg", "wma", "m4a"}

  /** `matches`: every name is in "all", none is a folder, and otherwise the
      lower-cased extension must match the category's pattern. */
  function Matches(t: FileType, fileName: JString): (r: bool)
    ensures t == All ==> r
    ensures t == Folder ==> !r
  {
    var ext := ExtensionKey(fileName);
    match t
    case All => true
    case Folder => false
    case Text => ext in TextMatches
    case Image => ext in ImageMatches
    case Document => ext in DocumentMatches
    case Video => ext in VideoMatches
    case Audio => ext in AudioMatches
  }

  /** Because text is tested first, an extension classifies as a document
      only when it is one of the document extensions that are not also text
      ones. */
  lemma DocumentOnlyFor(ext: string)
    ensures Classify(ext) == Document <==> ext in {"pdf", "ppt", "pptx", "ods", "odp"}
  {
  }

  /** A category's `matches` agrees with the classification: a name an
      image, video, audio or text filter accepts classifies as that
      category, and one the document filter accepts classifies as a
      document or as text. */
  lemma MatchesAgreesWithType(t: FileType, fileName: JString)
    requires Matches(t, fileName) && t != All
    ensures t != Document ==> GetFileType(false, fileName) == t
    ensures t == Document ==> GetFileType(false, fileName) in {Document, Text}
  {
    var ext := ExtensionKey(fileName);
    match t
    case Text => TextAgrees(ext);
    case Image => ImageAgrees(ext);
    case Document => DocumentAgrees(ext);
    case Video => VideoAgrees(ext);
    case Audio => AudioAgrees(ext);
  }

  lemma TextAgrees(ext: string)
    requires ext in TextMatches
    ensures Classify(ext) == Text
  {
  }

  lemma ImageAgrees(ext: string)
    requires ext in ImageMatches
    ensures Classify(ext) == Image
  {
  }

  lemma DocumentAgrees(ext: string)
    requires ext in DocumentMatches
    ensures Classify(ext) in {Document, Text}
  {
  }

  lemma VideoAgrees(ext: string)
    requires ext in VideoMatches
    ensures Classify(ext) == Video
  {
  }

  lemma AudioAgrees(ext: string)
    requires ext in AudioMatches
    ensures Classify(ext) == Audio
  {
  }

  /** The converse fails: "raw", "mpg", "mpeg" and "opus" classify into a
      category whose `matches` rejects them. */
  lemma ClassifiedButNotMatched()
    ensures Classify("raw") == Image && "raw" !in ImageMatches
    ensures Classify("mpg") == Video && "mpg" !in VideoMatches
    ensures Classify("mpeg") == Video && "mpeg" !in VideoMatches
    ensures Classify("opus") == Audio && "opus" !in AudioMatches
  {
  }

  /** The source and markup extensions of the text pattern are missing from
      the text filter, so those files classify as text but the text filter
      rejects them. */
  lemma TextFilterGap()
    ensures forall ext :: ext in {"log", "md", "json", "xml", "html", "css", "js", "py", "java", "c", "cpp", "h"} ==>
      Classify(ext) == Text && ext !in TextMatches
  {
  }

  /** A file's own category accepts it exactly when its extension is one of
      the filter patterns' alternatives; an unknown extension falls back to
      text, which the text filter rejects. */
  lemma OwnTypeMatches(fileName: JString)
    ensures Matches(GetFileType(false, fileName), fileName) <==>
      var ext := ExtensionKey(fileName);
      ext in TextMatches || ext in ImageMatches || ext in DocumentMatches || ext in VideoMatches || ext in AudioMatches
  {
    var ext := ExtensionKey(fileName);
    if ext in TextMatches { TextAgrees(ext); }
    else if ext in ImageMatches { ImageAgrees(ext); }
    else if ext in DocumentMatches { DocumentAgrees(ext); }
    else if ext in VideoMatches { VideoAgrees(ext); }
    else if ext in AudioMatches { AudioAgrees(ext); }
  }

  /** A name whose only '.' is its first character, or its last, has no
      extension and so classifies as text. */
  lemma NoExtensionIsText(fileName: JString)
    requires |fileName| > 0 && (fileName[0] == DOT || fileName[|fileName| - 1] == DOT)
    requires forall j :: 0 < j < |fileName| - 1 ==> fileName[j] != DOT
    ensures Extension(fileName) == [] && GetFileType(false, fileName) == Text
  {
  }
}
