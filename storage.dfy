/**
 * The page files of one table, standing in for the serialisation
 * manager: saving a page stores a copy of its fields under its index,
 * loading builds a new page object from that copy, and a deleted page
 * file can no longer be loaded.
 */
module Storage {
  import opened Common
  import opened Pages

  class PageStore {
    var images: map<int, PageImage>

    /** An empty pages folder. */
    constructor ()
      ensures images == map[]
    {
      images := map[];
    }

    /** `serializePage`: the file named by the page's own index now holds a copy of the page. */
    method SerializePage(page: Page)
      modifies this
      ensures images == old(images)[page.pageIndex := page.Image()]
    {
      images := images[page.pageIndex := page.Image()];
    }

    /** `deserializePage`: a new page object equal to the stored copy, or a missing file. */
    method DeserializePage(pageIndex: int) returns (page: Page?, err: Option<DbError>)
      requires pageIndex in images ==> ImageValid(images[pageIndex])
      ensures err.None? <==> pageIndex in images
      ensures err.Some? ==> err.value == MissingFile && page == null
      ensures err.None? ==> page != null && fresh(page) && page.Valid() && page.Image() == images[pageIndex]
    {
      if pageIndex !in images {
        return null, Some(MissingFile);
      }
      page := new Page.Restore(images[pageIndex]);
      err := None;
    }

    /** Deleting a page file. */
    method DeletePage(pageIndex: int)
      modifies this
      ensures images == old(images) - {pageIndex}
    {
      images := images - {pageIndex};
    }
  }
}
