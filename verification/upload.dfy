/** The upload dispatcher of main.py `upload_file`: image detection, the
    all-images rule, and the two upload paths (merge into one PDF, or one
    Drive file per input). */
module Upload {
  import opened Results
  import opened Strings
  import opened Paths
  import opened Drive
  import opened Responses

  /** One multipart file part. */
  datatype UploadFile = UploadFile(filename: string, contentType: string, content: Bytes)

  /** What `img2pdf.convert` yields: the PDF bytes, or the message of the
      exception it raised. */
  datatype Conversion = Pdf(bytes: Bytes) | ConversionFailed(message: string)

  const ImagePrefix := "image/"
  const ImageExtensions: seq<string> := [".jpg", ".jpeg", ".png", ".bmp", ".gif", ".tiff", ".webp"]
  const PdfMime := "application/pdf"
  const MergedSuffix := "_merged.pdf"

  /** `is_image`: the content type starts with "image/" (case-sensitive), or
      else the lower-cased `splitext` extension of the filename is listed. */
  predicate IsImage(f: UploadFile)
  {
    StartsWith(f.contentType, ImagePrefix) || Lower(SplitExt(f.filename).1) in ImageExtensions
  }

  /** `all(is_image(f) for f in files)`, entry by entry. */
  predicate AllAreImages(files: seq<UploadFile>)
  {
    files == [] || (IsImage(files[0]) && AllAreImages(files[1..]))
  }

  /** `is_all_images`: a non-empty batch of images only. */
  predicate IsAllImages(files: seq<UploadFile>)
  {
    |files| > 0 && AllAreImages(files)
  }

  /** The entry-by-entry check is the quantified rule. */
  lemma {:induction false} AllAreImagesIff(files: seq<UploadFile>)
    ensures AllAreImages(files) <==> forall i :: 0 <= i < |files| ==> IsImage(files[i])
    decreases |files|
  {
    if files != [] {
      AllAreImagesIff(files[1..]);
      assert forall i :: 1 <= i < |files| ==> files[i] == files[1..][i - 1];
    }
  }

  /** The merge rule: merge exactly when the batch is non-empty and every
      entry is an image. */
  lemma MergeRule(files: seq<UploadFile>)
    ensures IsAllImages(files) <==> |files| > 0 && forall i :: 0 <= i < |files| ==> IsImage(files[i])
  {
    AllAreImagesIff(files);
  }

  /** A single non-image entry disqualifies the whole batch. */
  lemma OneNonImageDisqualifies(files: seq<UploadFile>, i: int)
    requires 0 <= i < |files| && !IsImage(files[i])
    ensures !IsAllImages(files)
  {
    AllAreImagesIff(files);
  }

  /** The extension test ignores letter case. */
  lemma ExtensionCaseInsensitive(name: string, ct: string, content: Bytes)
    requires SplitExt(name).1 == ".JPG"
    ensures IsImage(UploadFile(name, ct, content))
  {
    assert Lower(".JPG") == ".jpg";
  }

  /** The content-type test does not: "IMAGE/PNG" on a file with extension
      ".txt" is no image. */
  lemma ContentTypeCaseSensitive(name: string, content: Bytes)
    requires SplitExt(name).1 == ".txt"
    ensures !IsImage(UploadFile(name, "IMAGE/PNG", content))
  {
    assert "IMAGE/PNG"[0] != ImagePrefix[0];
    assert Lower(".txt") == ".txt";
  }

  /** A dot-file named like an extension is not an image by name: its
      leading dot does not start an extension. */
  lemma DotFileIsNotImageByName(ct: string, content: Bytes)
    requires !StartsWith(ct, ImagePrefix)
    ensures !IsImage(UploadFile(".png", ct, content))
  {
    assert RFind(".png", '/') == -1;
    assert ".png"[0] == '.';
    assert RFind(".png", '.') == 0;
    assert Lower("") == "";
  }

  /** The merged document's name: the first file's `splitext` root followed
      by "_merged.pdf", so the first file's name is the stem plus exactly
      its `splitext` extension. */
  function PdfName(filename: string): (r: string)
    ensures |r| >= |MergedSuffix| && r[|r| - |MergedSuffix|..] == MergedSuffix
    ensures StartsWith(filename, r[..|r| - |MergedSuffix|])
    ensures var ext := filename[|r| - |MergedSuffix|..];
            ext == [] || (ext[0] == '.' && forall k :: 1 <= k < |ext| ==> ext[k] != '.' && ext[k] != '/')
    ensures filename[|r| - |MergedSuffix|..] == SplitExt(filename).1
  {
    var root := SplitExt(filename).0;
    assert filename == root + SplitExt(filename).1;
    var r := root + MergedSuffix;
    assert r[..|r| - |MergedSuffix|] == root;
    r
  }

  /** The bytes of every entry, in input order. */
  function Contents(files: seq<UploadFile>): seq<Bytes>
  {
    seq(|files|, i requires 0 <= i < |files| => files[i].content)
  }

  /** The read loop of the merge path: each file's bytes appended in turn. */
  method CollectBytes(files: seq<UploadFile>) returns (list: seq<Bytes>)
    ensures |list| == |files|
    ensures forall i :: 0 <= i < |files| ==> list[i] == files[i].content
  {
    list := [];
    var i := 0;
    while i < |files|
      invariant 0 <= i <= |files|
      invariant |list| == i
      invariant forall j :: 0 <= j < i ==> list[j] == files[j].content
    {
      list := list + [files[i].content];
      i := i + 1;
    }
  }

  /** The stored form of one per-file upload: the entry's name, declared
      type and bytes, with the target as its only parent. */
  predicate IsUploadOf(it: Item, f: UploadFile, target: Id)
  {
    it.name == f.filename && it.mimeType == f.contentType && it.content == f.content
    && it.parents == [target] && !it.trashed
  }

  /** The per-file path: one create per entry, in input order, each summary
      built from the item Drive returned. */
  method UploadEach(s: Store, files: seq<UploadFile>, target: Id) returns (uploaded: seq<Summary>, t: Store)
    ensures Extends(s, t) && |t| == |s| + |files|
    ensures |uploaded| == |files|
    ensures forall i :: 0 <= i < |files| ==> IsUploadOf(t[|s| + i], files[i], target)
    ensures forall i :: 0 <= i < |files| ==> uploaded[i] == Summarize(t[|s| + i])
    ensures forall i :: 0 <= i < |files| ==> uploaded[i].name == files[i].filename
    ensures forall i :: 0 <= i < |files| ==> (uploaded[i].kind == Folder <==> files[i].contentType == FolderMime)
    ensures forall i, j :: 0 <= i < j < |files| ==> uploaded[i].id != uploaded[j].id
    ensures forall i, k :: 0 <= i < |files| && 0 <= k < |s| ==> s[k].id != uploaded[i].id
  {
    uploaded := [];
    t := s;
    var i := 0;
    while i < |files|
      invariant 0 <= i <= |files|
      invariant Extends(s, t) && |t| == |s| + i
      invariant |uploaded| == i
      invariant forall j :: 0 <= j < i ==> IsUploadOf(t[|s| + j], files[j], target)
      invariant forall j :: 0 <= j < i ==> uploaded[j] == Summarize(t[|s| + j])
      invariant forall j, k :: 0 <= j < k < |t| && |s| <= k ==> t[j].id < t[k].id
    {
      var f := files[i];
      var (it, t') := Create(t, f.filename, f.contentType, [target], f.content);
      uploaded := uploaded + [Summarize(it)];
      t := t';
      i := i + 1;
    }
  }

  /** The stored form of the merged upload: a PDF named after the first
      file, holding the converter's bytes, with the target as its only
      parent. */
  predicate IsPdfOf(it: Item, files: seq<UploadFile>, target: Id, bytes: Bytes)
    requires |files| > 0
  {
    it.name == PdfName(files[0].filename) && it.mimeType == PdfMime && it.content == bytes
    && it.parents == [target] && !it.trashed
  }

  /** The merge path: convert all bytes, in order, into one PDF named after
      the first file and create it under the target. A conversion failure is
      a 500 and creates nothing. */
  method MergeUpload(s: Store, files: seq<UploadFile>, target: Id, convert: seq<Bytes> -> Conversion)
    returns (res: Result<seq<Summary>>, t: Store)
    requires |files| > 0
    ensures convert(Contents(files)).ConversionFailed? ==>
      res == Err(ServerError(convert(Contents(files)).message)) && t == s
    ensures convert(Contents(files)).Pdf? ==>
      && res.Ok? && |res.value| == 1 && |t| == |s| + 1 && Extends(s, t)
      && IsPdfOf(t[|s|], files, target, convert(Contents(files)).bytes)
      && res.value == [Summarize(t[|s|])] && res.value[0].kind == File
  {
    var name := PdfName(files[0].filename);
    var list := CollectBytes(files);
    assert list == Contents(files);
    match convert(list)
    case ConversionFailed(msg) =>
      res, t := Err(ServerError(msg)), s;
    case Pdf(bytes) =>
      var (it, t') := Create(s, name, PdfMime, [target], bytes);
      res := Ok([Summary(it.id, it.name, File, it.webViewLink, it.thumbnailLink)]);
      t := t';
  }

  /** The dispatch decision. */
  method Dispatch(s: Store, files: seq<UploadFile>, target: Id, convert: seq<Bytes> -> Conversion)
    returns (res: Result<seq<Summary>>, t: Store)
    ensures Extends(s, t)
    ensures IsAllImages(files) && res.Ok? ==> |res.value| == 1 && res.value[0].kind == File
    ensures IsAllImages(files) && convert(Contents(files)).Pdf? ==>
      && res.Ok? && |t| == |s| + 1
      && IsPdfOf(t[|s|..][0], files, target, convert(Contents(files)).bytes)
      && res.value == [Summarize(t[|s|..][0])]
    ensures IsAllImages(files) && convert(Contents(files)).ConversionFailed? ==>
      res == Err(ServerError(convert(Contents(files)).message)) && t == s
    ensures !IsAllImages(files) ==> res.Ok? && |res.value| == |files| && |t| == |s| + |files|
    ensures !IsAllImages(files) ==> forall i :: 0 <= i < |files| ==>
      IsUploadOf(t[|s|..][i], files[i], target) && res.value[i] == Summarize(t[|s|..][i])
  {
    if IsAllImages(files) {
      res, t := MergeUpload(s, files, target, convert);
      if convert(Contents(files)).Pdf? {
        assert t[|s|..][0] == t[|s|];
      }
    } else {
      var uploaded;
      uploaded, t := UploadEach(s, files, target);
      assert forall i :: 0 <= i < |files| ==> t[|s|..][i] == t[|s| + i];
      res := Ok(uploaded);
    }
  }
}
