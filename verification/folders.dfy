/** Folder resolution against the store (main.py `check_or_create_root_folder`
    and the target / parent lookups of the upload, create_folder and list_files
    handlers). Every lookup is an exact-name match. */
module Folders {
  import opened Results
  import opened Drive

  const RootName := "My Doc"
  const DefaultFolders: seq<string> := ["Bills", "Notes", "Certificates", "Receipts"]

  /** Look for a live folder `name` directly under `parent`; create it there
      when there is none. Returns the folder's id and the new store. */
  function GetOrCreateFolder(s: Store, name: string, parent: Id): (r: (Id, Store))
    ensures First(s, ChildFolderNamed(name, parent)).Some? ==>
      r == (First(s, ChildFolderNamed(name, parent)).value.id, s)
    ensures First(s, ChildFolderNamed(name, parent)).None? ==>
      && |r.1| == |s| + 1 && Extends(s, r.1)
      && r.1[|s|].id == r.0 && r.1[|s|].name == name && r.1[|s|].mimeType == FolderMime
      && r.1[|s|].parents == [parent] && !r.1[|s|].trashed
      && forall i :: 0 <= i < |s| ==> s[i].id < r.0
    ensures First(r.1, ChildFolderNamed(name, parent)).Some?
    ensures First(r.1, ChildFolderNamed(name, parent)).value.id == r.0
  {
    match First(s, ChildFolderNamed(name, parent))
    case Some(it) => (it.id, s)
    case None =>
      var (it, t) := Create(s, name, FolderMime, [parent], []);
      FirstAppend(s, [it], ChildFolderNamed(name, parent));
      (it.id, t)
  }

  /** Item `t[j]` is one the default loop created: a live folder directly
      under `root`, named by one of `names`, and created only because no
      such child existed in the store before it. */
  predicate CreatedDefault(t: Store, j: int, root: Id, names: seq<string>)
    requires 0 <= j < |t|
  {
    && t[j].mimeType == FolderMime && t[j].parents == [root] && !t[j].trashed
    && t[j].name in names
    && First(t[..j], ChildFolderNamed(t[j].name, root)).None?
  }

  /** The default-subfolder loop: ensure each name of `names`, in order, as a
      live child folder of `root`. */
  function EnsureDefaults(s: Store, root: Id, names: seq<string>): (t: Store)
    ensures Extends(s, t) && |t| <= |s| + |names|
    ensures forall k :: 0 <= k < |names| ==> First(t, ChildFolderNamed(names[k], root)).Some?
    ensures (forall k :: 0 <= k < |names| ==> First(s, ChildFolderNamed(names[k], root)).Some?) ==> t == s
    ensures forall j :: |s| <= j < |t| ==> CreatedDefault(t, j, root, names)
    decreases |names|
  {
    if names == [] then s
    else
      var s1 := GetOrCreateFolder(s, names[0], root).1;
      var t := EnsureDefaults(s1, root, names[1..]);
      assert t[..|s|] == t[..|s1|][..|s|];
      FirstPersists(s1, t, ChildFolderNamed(names[0], root));
      assert forall k :: 1 <= k < |names| ==> names[k] == names[1..][k - 1];
      CreatedDefaultsStep(s, root, names, t);
      t
  }

  /** One turn of the default loop keeps every appended item a created
      default: the folder made for `names[0]`, if any, and those the rest of
      the loop made for `names[1..]`. */
  lemma CreatedDefaultsStep(s: Store, root: Id, names: seq<string>, t: Store)
    requires names != []
    requires var s1 := GetOrCreateFolder(s, names[0], root).1;
             Extends(s1, t) && forall j :: |s1| <= j < |t| ==> CreatedDefault(t, j, root, names[1..])
    ensures forall j :: |s| <= j < |t| ==> CreatedDefault(t, j, root, names)
  {
    var s1 := GetOrCreateFolder(s, names[0], root).1;
    forall j | |s| <= j < |t| ensures CreatedDefault(t, j, root, names) {
      if j >= |s1| {
        assert CreatedDefault(t, j, root, names[1..]);
        assert t[j].name in names[1..];
      } else {
        assert t[..|s|] == t[..|s1|][..|s|] == s;
        assert t[|s|] == s1[|s|];
      }
    }
  }

  /** The default loop never duplicates a folder: no two created folders
      share a name, and none had a namesake under `root` beforehand. */
  lemma CreatedDefaultsAreNew(s: Store, t: Store, root: Id, names: seq<string>)
    requires Extends(s, t)
    requires forall j :: |s| <= j < |t| ==> CreatedDefault(t, j, root, names)
    ensures forall i, j :: |s| <= i < j < |t| ==> t[i].name != t[j].name
    ensures forall j :: |s| <= j < |t| ==> First(s, ChildFolderNamed(t[j].name, root)).None?
  {
    forall i, j | |s| <= i < j < |t| ensures t[i].name != t[j].name {
      var q := ChildFolderNamed(t[j].name, root);
      assert CreatedDefault(t, j, root, names) && CreatedDefault(t, i, root, names);
      FirstIsEarliestMatch(t[..j], q);
      assert t[..j][i] == t[i];
      assert !Matches(q, t[i]);
    }
    forall j | |s| <= j < |t| ensures First(s, ChildFolderNamed(t[j].name, root)).None? {
      var q := ChildFolderNamed(t[j].name, root);
      assert CreatedDefault(t, j, root, names);
      assert t[..j][..|s|] == s;
      if First(s, q).Some? {
        FirstPersists(s, t[..j], q);
      }
    }
  }

  /** The first step of `check_or_create_root_folder`: the first live folder
      named `rootName` anywhere in the store, created without a parent if
      there is none. */
  function EnsureRoot(s: Store, rootName: string): (r: (Id, Store))
    ensures First(s, FolderNamed(rootName)).Some? ==> r == (First(s, FolderNamed(rootName)).value.id, s)
    ensures First(s, FolderNamed(rootName)).None? ==>
      && |r.1| == |s| + 1 && Extends(s, r.1) && r.1[|s|].id == r.0 && r.1[|s|].parents == []
      && r.1[|s|].name == rootName && r.1[|s|].mimeType == FolderMime && !r.1[|s|].trashed
    ensures First(r.1, FolderNamed(rootName)).Some?
    ensures First(r.1, FolderNamed(rootName)).value.id == r.0
  {
    match First(s, FolderNamed(rootName))
    case Some(it) => (it.id, s)
    case None =>
      var (it, t) := Create(s, rootName, FolderMime, [], []);
      FirstAppend(s, [it], FolderNamed(rootName));
      (it.id, t)
  }

  /** `check_or_create_root_folder(service, folder_name="My Doc")`: the root,
      then each default subfolder under it. Returns the root id and the new
      store. */
  function EnsureRootAndDefaults(s: Store, rootName: string := RootName, names: seq<string> := DefaultFolders): (r: (Id, Store))
    ensures Extends(s, r.1) && |r.1| <= |s| + 1 + |names|
    ensures First(r.1, FolderNamed(rootName)).Some?
    ensures First(r.1, FolderNamed(rootName)).value.id == r.0
    ensures First(s, FolderNamed(rootName)).Some? ==> r.0 == First(s, FolderNamed(rootName)).value.id
    ensures forall k :: 0 <= k < |names| ==> First(r.1, ChildFolderNamed(names[k], r.0)).Some?
    ensures First(s, FolderNamed(rootName)).None? ==>
      && |r.1| > |s| && r.1[|s|].id == r.0 && r.1[|s|].name == rootName
      && r.1[|s|].mimeType == FolderMime && r.1[|s|].parents == [] && !r.1[|s|].trashed
    ensures forall j :: |s| <= j < |r.1| ==>
      (j == |s| && First(s, FolderNamed(rootName)).None?) || CreatedDefault(r.1, j, r.0, names)
  {
    var (root, s1) := EnsureRoot(s, rootName);
    var t := EnsureDefaults(s1, root, names);
    FirstPersists(s1, t, FolderNamed(rootName));
    assert t[..|s|] == t[..|s1|][..|s|];
    assert First(s, FolderNamed(rootName)).None? ==> t[|s|] == s1[|s|];
    (root, t)
  }

  /** Calling it a second time returns the same root and appends nothing. */
  lemma EnsureRootAndDefaultsIdempotent(s: Store, rootName: string, names: seq<string>)
    ensures var (root, t) := EnsureRootAndDefaults(s, rootName, names);
            EnsureRootAndDefaults(t, rootName, names) == (root, t)
  {
  }

  /** When the root and every default already exist, nothing is created. */
  lemma EnsureRootAndDefaultsNoOp(s: Store, rootName: string, names: seq<string>)
    requires First(s, FolderNamed(rootName)).Some?
    requires forall k :: 0 <= k < |names| ==>
      First(s, ChildFolderNamed(names[k], First(s, FolderNamed(rootName)).value.id)).Some?
    ensures EnsureRootAndDefaults(s, rootName, names) == (First(s, FolderNamed(rootName)).value.id, s)
  {
  }

  /** No name occurs twice. */
  predicate Distinct(names: seq<string>)
  {
    forall i, j :: 0 <= i < j < |names| ==> names[i] != names[j]
  }

  lemma DistinctTail(names: seq<string>)
    requires Distinct(names) && names != []
    ensures Distinct(names[1..])
    ensures names[0] !in names[1..]
  {
    forall i, j | 0 <= i < j < |names[1..]| ensures names[1..][i] != names[1..][j] {
      assert names[1..][i] == names[i + 1] && names[1..][j] == names[j + 1];
    }
  }

  /** When none of the (distinct) names exists under `root`, the loop creates
      one folder per name, in list order. */
  lemma {:induction false} EnsureDefaultsCreatesAllMissing(s: Store, root: Id, names: seq<string>)
    requires Distinct(names)
    requires forall k :: 0 <= k < |names| ==> First(s, ChildFolderNamed(names[k], root)).None?
    ensures |EnsureDefaults(s, root, names)| == |s| + |names|
    ensures forall k :: 0 <= k < |names| ==> EnsureDefaults(s, root, names)[|s| + k].name == names[k]
    decreases |names|
  {
    if names != [] {
      var r := GetOrCreateFolder(s, names[0], root);
      var s1 := r.1;
      var created := s1[|s|];
      assert created.name == names[0];
      assert s1 == s + [created];
      DistinctTail(names);
      forall k | 0 <= k < |names[1..]| ensures First(s1, ChildFolderNamed(names[1..][k], root)).None? {
        assert names[1..][k] == names[k + 1];
        AppendNonMatching(s, created, ChildFolderNamed(names[1..][k], root));
      }
      EnsureDefaultsCreatesAllMissing(s1, root, names[1..]);
      var t := EnsureDefaults(s1, root, names[1..]);
      assert t[..|s1|] == s1;
      assert t[|s|] == created;
      forall k | 1 <= k < |names| ensures t[|s| + k].name == names[k] {
        assert t[|s| + k] == t[|s1| + (k - 1)];
        assert names[1..][k - 1] == names[k];
      }
    }
  }

  /** The four default names are distinct. */
  lemma DefaultFoldersDistinct()
    ensures Distinct(DefaultFolders)
  {
  }

  /** On an empty store the call creates exactly the root and then one folder
      per (distinct) default name, in list order. */
  lemma EnsureRootAndDefaultsFromEmpty(rootName: string, names: seq<string>)
    requires Distinct(names)
    ensures |EnsureRootAndDefaults([], rootName, names).1| == 1 + |names|
  {
    var (root, s1) := EnsureRoot([], rootName);
    forall k | 0 <= k < |names| ensures First(s1, ChildFolderNamed(names[k], root)).None? {
      FirstIsEarliestMatch(s1, ChildFolderNamed(names[k], root));
    }
    EnsureDefaultsCreatesAllMissing(s1, root, names);
  }

  /** The upload target: "My Doc" is the root itself; any other name is a
      get-or-create of a child folder of the root. */
  function ResolveTarget(s: Store, root: Id, name: string): (r: (Id, Store))
    ensures name == RootName ==> r == (root, s)
    ensures Extends(s, r.1) && |r.1| <= |s| + 1
    ensures name != RootName ==>
      First(r.1, ChildFolderNamed(name, root)).Some? && First(r.1, ChildFolderNamed(name, root)).value.id == r.0
    ensures name != RootName && First(s, ChildFolderNamed(name, root)).Some? ==>
      r == (First(s, ChildFolderNamed(name, root)).value.id, s)
    ensures name != RootName && First(s, ChildFolderNamed(name, root)).None? ==>
      && |r.1| == |s| + 1 && r.1[|s|].id == r.0 && r.1[|s|].name == name
      && r.1[|s|].mimeType == FolderMime && r.1[|s|].parents == [root] && !r.1[|s|].trashed
  {
    if name == RootName then (root, s) else GetOrCreateFolder(s, name, root)
  }

  /** Resolving the same name again returns the same id and changes nothing. */
  lemma ResolveTargetIdempotent(s: Store, root: Id, name: string)
    ensures var (id, t) := ResolveTarget(s, root, name);
            ResolveTarget(t, root, name) == (id, t)
  {
  }

  /** create_folder's parent: an empty name or "My Doc" is the root; any
      other name resolves exactly as an upload target does. */
  function ResolveParent(s: Store, root: Id, parentFolder: string): (r: (Id, Store))
    ensures parentFolder == "" || parentFolder == RootName ==> r == (root, s)
    ensures parentFolder != "" ==> r == ResolveTarget(s, root, parentFolder)
  {
    if parentFolder == "" then (root, s) else ResolveTarget(s, root, parentFolder)
  }

  /** list_files' lookup: like ResolveTarget, but a miss is reported instead
      of creating the folder. */
  function LookupFolder(s: Store, root: Id, name: string): (r: Option<Id>)
    ensures name == RootName ==> r == Some(root)
    ensures name != RootName ==> (r.None? <==> First(s, ChildFolderNamed(name, root)).None?)
    ensures name != RootName && r.Some? ==> r.value == First(s, ChildFolderNamed(name, root)).value.id
  {
    if name == RootName then Some(root)
    else match First(s, ChildFolderNamed(name, root))
      case Some(it) => Some(it.id)
      case None => None
  }

  /** Lookup and get-or-create agree whenever the folder exists; on a miss
      get-or-create is the only one that changes the store. */
  lemma LookupAgreesWithResolve(s: Store, root: Id, name: string)
    ensures LookupFolder(s, root, name).Some? ==>
      ResolveTarget(s, root, name) == (LookupFolder(s, root, name).value, s)
    ensures LookupFolder(s, root, name).None? ==>
      |ResolveTarget(s, root, name).1| == |s| + 1
  {
  }
}
