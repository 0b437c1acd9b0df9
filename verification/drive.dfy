/** The remote Drive service, abstracted to an ordered sequence of items.
    A `files().list(q=...)` call is an order-preserving filter of that
    sequence; "the first result" is the head of the filter; a
    `files().create(...)` call appends one item with a fresh id. */
module Drive {
  import opened Results

  type Id = nat
  newtype Byte = x: int | 0 <= x < 256
  type Bytes = seq<Byte>

  const FolderMime := "application/vnd.google-apps.folder"

  /** A Drive file or folder. Folders are items whose mimeType is FolderMime. */
  datatype Item = Item(
    id: Id,
    name: string,
    mimeType: string,
    parents: seq<Id>,
    trashed: bool,
    content: Bytes,
    webViewLink: Option<string>,
    thumbnailLink: Option<string>)

  type Store = seq<Item>

  /** `t` is `s` with zero or more items appended: nothing is ever rewritten. */
  predicate Extends(s: Store, t: Store)
  {
    |s| <= |t| && t[..|s|] == s
  }

  /** The three filter shapes the relay sends to `files().list`. */
  datatype Query =
    | FolderNamed(name: string)                  // a live folder with this name, anywhere
    | ChildFolderNamed(name: string, parent: Id) // a live folder with this name directly under parent
    | LiveChildren(parent: Id)                   // any live item directly under parent

  predicate Matches(q: Query, it: Item)
  {
    match q
    case FolderNamed(n) =>
      it.mimeType == FolderMime && it.name == n && !it.trashed
    case ChildFolderNamed(n, p) =>
      it.mimeType == FolderMime && it.name == n && p in it.parents && !it.trashed
    case LiveChildren(p) =>
      p in it.parents && !it.trashed
  }

  /** The result list of `files().list(q)`: the matching items, in store order. */
  function List(s: Store, q: Query): (r: Store)
    ensures |r| <= |s|
    ensures forall i :: 0 <= i < |r| ==> Matches(q, r[i])
  {
    if s == [] then []
    else (if Matches(q, s[0]) then [s[0]] else []) + List(s[1..], q)
  }

  /** `files[0]` of a non-empty result list. */
  function First(s: Store, q: Query): Option<Item>
  {
    var found := List(s, q);
    if found == [] then None else Some(found[0])
  }

  /** The listing holds exactly the store's items that the query selects. */
  lemma {:induction false} ListMembers(s: Store, q: Query, it: Item)
    ensures it in List(s, q) <==> it in s && Matches(q, it)
  {
    if s != [] {
      ListMembers(s[1..], q, it);
      assert it in s <==> it == s[0] || it in s[1..];
    }
  }

  /** Filtering distributes over concatenation, so order is kept. */
  lemma {:induction false} ListAppend(a: Store, b: Store, q: Query)
    ensures List(a + b, q) == List(a, q) + List(b, q)
  {
    if a == [] {
      assert a + b == b;
    } else {
      var head := if Matches(q, a[0]) then [a[0]] else [];
      assert (a + b)[0] == a[0];
      assert (a + b)[1..] == a[1..] + b;
      assert List(a + b, q) == head + List(a[1..] + b, q);
      ListAppend(a[1..], b, q);
      assert List(a, q) == head + List(a[1..], q);
    }
  }

  /** The first result is the earliest matching item of the store, and there
      is none exactly when no item matches. */
  lemma {:induction false} FirstIsEarliestMatch(s: Store, q: Query)
    ensures First(s, q).None? <==> forall i :: 0 <= i < |s| ==> !Matches(q, s[i])
    ensures First(s, q).Some? ==>
      exists k :: 0 <= k < |s| && s[k] == First(s, q).value && Matches(q, s[k])
                  && forall j :: 0 <= j < k ==> !Matches(q, s[j])
  {
    if s != [] {
      FirstIsEarliestMatch(s[1..], q);
      if !Matches(q, s[0]) {
        assert List(s, q) == List(s[1..], q);
        if First(s, q).Some? {
          var k :| 0 <= k < |s[1..]| && s[1..][k] == First(s, q).value && Matches(q, s[1..][k])
                   && forall j :: 0 <= j < k ==> !Matches(q, s[1..][j]);
          assert s[k + 1] == s[1..][k];
          assert forall j :: 0 <= j < k + 1 ==> !Matches(q, s[j]) by {
            forall j | 0 <= j < k + 1 ensures !Matches(q, s[j]) {
              if j > 0 { assert s[j] == s[1..][j - 1]; }
            }
          }
        }
        assert forall i :: 0 <= i < |s| ==> s[i] == s[0] || s[i] in s[1..];
      }
    }
  }

  /** Appending never changes an existing first result; on a miss, the
      first result is taken from the appended part. */
  lemma FirstAppend(a: Store, b: Store, q: Query)
    ensures First(a + b, q) == if First(a, q).Some? then First(a, q) else First(b, q)
  {
    ListAppend(a, b, q);
  }

  /** Appending an item the query does not select changes no answer. */
  lemma AppendNonMatching(s: Store, it: Item, q: Query)
    requires !Matches(q, it)
    ensures First(s + [it], q) == First(s, q)
  {
    ListAppend(s, [it], q);
    assert List([it], q) == [];
  }

  /** A consequence for the relay: once a lookup succeeds, every later state of
      the store answers it with the same item. */
  lemma FirstPersists(s: Store, t: Store, q: Query)
    requires Extends(s, t)
    requires First(s, q).Some?
    ensures First(t, q) == First(s, q)
  {
    assert t == s + t[|s|..];
    FirstAppend(s, t[|s|..], q);
  }

  /** The largest id in use (0 for the empty store). */
  function MaxId(s: Store): (m: nat)
    ensures forall i :: 0 <= i < |s| ==> s[i].id <= m
  {
    if s == [] then 0
    else var m := MaxId(s[1..]); if s[0].id > m then s[0].id else m
  }

  /** `files().create(body=...)`: a new live item, appended, whose id exceeds
      every id in use. Drive fills in the links later; the model leaves them absent. */
  function Create(s: Store, name: string, mimeType: string, parents: seq<Id>, content: Bytes): (r: (Item, Store))
    ensures r.1 == s + [r.0]
    ensures r.0.name == name && r.0.mimeType == mimeType && r.0.parents == parents
    ensures r.0.content == content && !r.0.trashed
    ensures r.0.webViewLink.None? && r.0.thumbnailLink.None?
    ensures forall i :: 0 <= i < |s| ==> s[i].id < r.0.id
  {
    var it := Item(MaxId(s) + 1, name, mimeType, parents, false, content, None, None);
    (it, s + [it])
  }

  /** No two items share an id. */
  predicate UniqueIds(s: Store)
  {
    forall i, j :: 0 <= i < j < |s| ==> s[i].id != s[j].id
  }

  /** Creating an item keeps ids unique. */
  lemma CreateKeepsIdsUnique(s: Store, name: string, mimeType: string, parents: seq<Id>, content: Bytes)
    requires UniqueIds(s)
    ensures UniqueIds(Create(s, name, mimeType, parents, content).1)
  {
    var t := Create(s, name, mimeType, parents, content).1;
    assert forall i :: 0 <= i < |s| ==> t[i] == s[i];
  }
}
