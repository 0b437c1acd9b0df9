/** The client-facing item shape `{id, name, type, webViewLink, thumbnailLink}`. */
module Responses {
  import opened Results
  import opened Drive

  datatype Kind = File | Folder

  datatype Summary = Summary(
    id: Id,
    name: string,
    kind: Kind,
    webViewLink: Option<string>,
    thumbnailLink: Option<string>)

  /** The formatting of one returned Drive item: "folder" exactly when its
      mimeType is the Drive folder type, links passed through unchanged. */
  function Summarize(it: Item): (r: Summary)
    ensures r.id == it.id && r.name == it.name
    ensures r.kind == Folder <==> it.mimeType == FolderMime
    ensures r.webViewLink == it.webViewLink && r.thumbnailLink == it.thumbnailLink
  {
    Summary(it.id, it.name, if it.mimeType == FolderMime then Folder else File,
            it.webViewLink, it.thumbnailLink)
  }

  /** One summary per item, in order. */
  function SummarizeAll(items: seq<Item>): (r: seq<Summary>)
    ensures |r| == |items|
    ensures forall i :: 0 <= i < |items| ==> r[i] == Summarize(items[i])
  {
    if items == [] then [] else [Summarize(items[0])] + SummarizeAll(items[1..])
  }
}
