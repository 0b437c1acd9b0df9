/** The three request handlers with decision logic (main.py `upload_file`,
    `create_folder`, `list_files`). Each first extracts the bearer token (a
    failure is a 401 before anything touches the store), then ensures the
    root and default folders, then does its own work. */
module Handlers {
  import opened Results
  import opened Auth
  import opened Drive
  import opened Folders
  import opened Responses
  import opened Upload

  /** The JSON body of a successful upload. */
  datatype UploadResponse = UploadResponse(uploaded: seq<Summary>, targetFolder: string)

  /** POST /upload. */
  method UploadFiles(s: Store, authorization: string, files: seq<UploadFile>, folderName: string,
                     convert: seq<Bytes> -> Conversion)
    returns (res: Result<UploadResponse>, t: Store)
    ensures ParseBearer(authorization).Err? ==> res == Err(ParseBearer(authorization).error) && t == s
    ensures ParseBearer(authorization).Ok? ==>
      var (root, s1) := EnsureRootAndDefaults(s);
      var (target, s2) := ResolveTarget(s1, root, folderName);
      && Extends(s2, t)
      && (res.Ok? ==> res.value.targetFolder == folderName)
      && (IsAllImages(files) && res.Ok? ==> |res.value.uploaded| == 1 && res.value.uploaded[0].kind == File)
      && (IsAllImages(files) && convert(Contents(files)).Pdf? ==>
            && res.Ok? && |t| == |s2| + 1
            && IsPdfOf(t[|s2|..][0], files, target, convert(Contents(files)).bytes)
            && res.value.uploaded == [Summarize(t[|s2|..][0])])
      && (IsAllImages(files) && convert(Contents(files)).ConversionFailed? ==>
            res == Err(ServerError(convert(Contents(files)).message)) && t == s2)
      && (!IsAllImages(files) ==>
            && res.Ok? && |res.value.uploaded| == |files| && |t| == |s2| + |files|
            && forall i :: 0 <= i < |files| ==>
                 IsUploadOf(t[|s2|..][i], files[i], target) && res.value.uploaded[i] == Summarize(t[|s2|..][i]))
  {
    var auth := ParseBearer(authorization);
    if auth.Err? {
      return Err(auth.error), s;
    }
    var (root, s1) := EnsureRootAndDefaults(s);
    var (target, s2) := ResolveTarget(s1, root, folderName);
    var uploaded;
    uploaded, t := Dispatch(s2, files, target, convert);
    match uploaded
    case Err(e) => res := Err(e);
    case Ok(list) => res := Ok(UploadResponse(list, folderName));
  }

  /** POST /create_folder: resolve the parent, then always create a new
      folder under it, even when a sibling of that name exists. */
  function CreateFolder(s: Store, authorization: string, folderName: string, parentFolder: string := RootName)
    : (r: (Result<Summary>, Store))
    ensures ParseBearer(authorization).Err? ==> r == (Err(ParseBearer(authorization).error), s)
    ensures ParseBearer(authorization).Ok? ==>
      var (root, s1) := EnsureRootAndDefaults(s);
      var (parent, s2) := ResolveParent(s1, root, parentFolder);
      && r.0.Ok? && |r.1| == |s2| + 1 && Extends(s2, r.1)
      && r.1[|s2|].name == folderName && r.1[|s2|].mimeType == FolderMime
      && r.1[|s2|].parents == [parent] && !r.1[|s2|].trashed
      && r.0.value == Summary(r.1[|s2|].id, folderName, Folder, r.1[|s2|].webViewLink, None)
  {
    match ParseBearer(authorization)
    case Err(e) => (Err(e), s)
    case Ok(_) =>
      var (root, s1) := EnsureRootAndDefaults(s);
      var (parent, s2) := ResolveParent(s1, root, parentFolder);
      var (it, t) := Create(s2, folderName, FolderMime, [parent], []);
      (Ok(Summary(it.id, it.name, Folder, it.webViewLink, None)), t)
  }

  /** GET /files: look the folder up without creating it; an unknown name
      lists nothing, a known one lists its live children in store order. */
  function ListFiles(s: Store, authorization: string, folderName: string := RootName)
    : (r: (Result<seq<Summary>>, Store))
    ensures ParseBearer(authorization).Err? ==> r == (Err(ParseBearer(authorization).error), s)
    ensures ParseBearer(authorization).Ok? ==>
      var (root, s1) := EnsureRootAndDefaults(s);
      && r.1 == s1
      && r.0.Ok?
      && (LookupFolder(s1, root, folderName).None? ==> r.0.value == [])
      && (LookupFolder(s1, root, folderName).Some? ==>
            var children := List(s1, LiveChildren(LookupFolder(s1, root, folderName).value));
            && |r.0.value| == |children|
            && forall i :: 0 <= i < |children| ==> r.0.value[i] == Summarize(children[i]))
  {
    match ParseBearer(authorization)
    case Err(e) => (Err(e), s)
    case Ok(_) =>
      var (root, s1) := EnsureRootAndDefaults(s);
      match LookupFolder(s1, root, folderName)
      case None => (Ok([]), s1)
      case Some(target) => (Ok(SummarizeAll(List(s1, LiveChildren(target)))), s1)
  }

  /** A live item directly under `parent` appears in the store's listing of
      `parent`. */
  lemma ListedChild(s: Store, parent: Id, it: Item)
    requires it in s && Matches(LiveChildren(parent), it)
    ensures exists j :: 0 <= j < |List(s, LiveChildren(parent))| && List(s, LiveChildren(parent))[j] == it
  {
    ListMembers(s, LiveChildren(parent), it);
  }

  /** Listing "My Doc" always shows the four default folders. */
  lemma ListingRootShowsDefaults(s: Store, authorization: string, k: int)
    requires ParseBearer(authorization).Ok?
    requires 0 <= k < |DefaultFolders|
    ensures var files := ListFiles(s, authorization).0.value;
            exists j :: 0 <= j < |files| && files[j].name == DefaultFolders[k] && files[j].kind == Folder
  {
    var (root, s1) := EnsureRootAndDefaults(s);
    var q := ChildFolderNamed(DefaultFolders[k], root);
    var it := First(s1, q).value;
    FirstIsEarliestMatch(s1, q);
    ListedChild(s1, root, it);
    var children := List(s1, LiveChildren(root));
    var j :| 0 <= j < |children| && children[j] == it;
    assert ListFiles(s, authorization).0.value[j] == Summarize(it);
  }

  /** A store in which the root and the defaults are already in place is
      left alone by the next request's root check. */
  lemma RootCheckSettled(s: Store, rootName: string, names: seq<string>, t: Store)
    requires Extends(EnsureRootAndDefaults(s, rootName, names).1, t)
    ensures EnsureRootAndDefaults(t, rootName, names) == (EnsureRootAndDefaults(s, rootName, names).0, t)
  {
    var (root, s1) := EnsureRootAndDefaults(s, rootName, names);
    FirstPersists(s1, t, FolderNamed(rootName));
    forall k | 0 <= k < |names|
      ensures First(t, ChildFolderNamed(names[k], root)).Some?
    {
      FirstPersists(s1, t, ChildFolderNamed(names[k], root));
    }
    EnsureRootAndDefaultsNoOp(t, rootName, names);
  }

  /** Once a request has resolved its parent folder, any later store still
      finds the same root and resolves the parent to the same folder without
      creating anything. */
  lemma ParentSettled(s: Store, rootName: string, names: seq<string>, parentFolder: string, t: Store)
    requires var (root, s1) := EnsureRootAndDefaults(s, rootName, names);
             Extends(ResolveParent(s1, root, parentFolder).1, t)
    ensures var (root, s1) := EnsureRootAndDefaults(s, rootName, names);
            && EnsureRootAndDefaults(t, rootName, names) == (root, t)
            && ResolveParent(t, root, parentFolder) == (ResolveParent(s1, root, parentFolder).0, t)
  {
    var (root, s1) := EnsureRootAndDefaults(s, rootName, names);
    var (parent, s2) := ResolveParent(s1, root, parentFolder);
    assert Extends(s1, t) by {
      assert t[..|s1|] == t[..|s2|][..|s1|];
    }
    RootCheckSettled(s, rootName, names, t);
    if parentFolder != "" && parentFolder != RootName {
      FirstPersists(s2, t, ChildFolderNamed(parentFolder, root));
    }
  }

  /** A folder made by create_folder is listed under the parent it was
      created in, with the summary create_folder returned. */
  lemma CreatedFolderIsListed(s: Store, authorization: string, folderName: string, parentFolder: string)
    requires ParseBearer(authorization).Ok?
    ensures var (created, t) := CreateFolder(s, authorization, folderName, parentFolder);
            var listed := ListFiles(t, authorization, if parentFolder == "" then RootName else parentFolder).0;
            listed.Ok? && created.value in listed.value
  {
    var (root, s1) := EnsureRootAndDefaults(s);
    var (parent, s2) := ResolveParent(s1, root, parentFolder);
    var (created, t) := CreateFolder(s, authorization, folderName, parentFolder);
    var name := if parentFolder == "" then RootName else parentFolder;
    ParentSettled(s, RootName, DefaultFolders, parentFolder, t);
    assert LookupFolder(t, root, name) == Some(parent) by {
      LookupAgreesWithResolve(t, root, name);
    }
    var it := t[|s2|];
    ListedChild(t, parent, it);
    var children := List(t, LiveChildren(parent));
    var j :| 0 <= j < |children| && children[j] == it;
    assert ListFiles(t, authorization, name).0.value[j] == Summarize(it) == created.value;
  }

  /** create_folder does not deduplicate: asking twice for the same folder
      makes two folders with different ids, one more item each time. */
  lemma CreateFolderTwiceMakesTwo(s: Store, authorization: string, folderName: string, parentFolder: string)
    requires ParseBearer(authorization).Ok?
    ensures var (first, t1) := CreateFolder(s, authorization, folderName, parentFolder);
            var (second, t2) := CreateFolder(t1, authorization, folderName, parentFolder);
            |t2| == |t1| + 1 && first.value.id != second.value.id && first.value.name == second.value.name
  {
    ParentSettled(s, RootName, DefaultFolders, parentFolder, CreateFolder(s, authorization, folderName, parentFolder).1);
  }
}
