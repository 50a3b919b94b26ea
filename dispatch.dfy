/** The choice of remote operation for a resolved batch, and that operation's answer. */
module Dispatch {
  import opened Items

  /** Where the batch goes: an existing album, a new album, or the library. */
  datatype Target = ExistingAlbum(title: string) | NewAlbum(title: string) | Library

  /**
    The `switch` of `upload`: an album title wins over a new-album title,
    which wins over the library; exactly one target is chosen.
  */
  function Choose(albumTitle: string, newAlbum: string): (t: Target)
    ensures t.ExistingAlbum? <==> albumTitle != ""
    ensures t.NewAlbum? <==> albumTitle == "" && newAlbum != ""
    ensures t.Library? <==> albumTitle == "" && newAlbum == ""
    ensures t.ExistingAlbum? ==> t.title == albumTitle
    ensures t.NewAlbum? ==> t.title == newAlbum
  {
    if albumTitle != "" then ExistingAlbum(albumTitle)
    else if newAlbum != "" then NewAlbum(newAlbum)
    else Library
  }

  /**
    The one service operation the target selects. Adding to the library
    has no batch-level error: only per-item results.
  */
  function Call(svc: Service, t: Target, items: seq<UploadItem>): BatchOutcome
  {
    match t
    case ExistingAlbum(title) => svc.addToAlbum(title, items)
    case NewAlbum(title) => svc.createAlbum(title, items)
    case Library => Added(svc.addToLibrary(items))
  }

  /**
    The service never answers with more results than items: the reporting
    loop indexes the items by result position, which would otherwise panic.
  */
  ghost predicate ResultsFit(svc: Service) {
    forall t, items :: Call(svc, t, items).Added? ==> |Call(svc, t, items).results| <= |items|
  }
}
