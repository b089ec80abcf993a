/**
 The bookmark manager: an object holding the ordered list of bookmarks, whose
 methods loop over that list and change it in place. Each method is proved to
 compute the matching function of module Store.
 */
module Manager {
  import opened Records
  import opened Store

  class BookmarkManager {
    /** The bookmarks in memory, in insertion (file) order. */
    var bookmarks: seq<Bookmark>
    /** The document the last save wrote to the backing file; None before the first save. */
    ghost var persisted: Option<seq<map<string, Value>>>

    /** The backing file holds exactly what is in memory. */
    ghost predicate InSync()
      reads this
    {
      persisted == Some(EncodeAll(bookmarks))
    }

    /** Starts from the list that loading the backing file produced. */
    constructor (loaded: seq<Bookmark>)
      ensures bookmarks == loaded && persisted == None
    {
      bookmarks := loaded;
      persisted := None;
    }

    /** `save_bookmarks`: writes one mapping per bookmark, in order; loading it back gives the same list. */
    method SaveBookmarks()
      modifies this`persisted
      ensures InSync()
      ensures DecodeAll(persisted.value) == Ok(bookmarks)
    {
      persisted := Some(EncodeAll(bookmarks));
      DecodeAllEncodeAll(bookmarks);
    }

    /** `get_next_id`: 1 for an empty list, otherwise the largest id present plus one. */
    method GetNextId() returns (next: int)
      ensures next == NextId(bookmarks)
      ensures !HasId(bookmarks, next)
    {
      if |bookmarks| == 0 {
        return 1;
      }
      var largest := bookmarks[0].id;
      var i := 1;
      while i < |bookmarks|
        invariant 1 <= i <= |bookmarks|
        invariant exists j :: 0 <= j < i && bookmarks[j].id == largest
        invariant forall j :: 0 <= j < i ==> bookmarks[j].id <= largest
      {
        if bookmarks[i].id > largest {
          largest := bookmarks[i].id;
        }
        i := i + 1;
      }
      next := largest + 1;
    }

    /**
     `add_bookmark`: appends a bookmark with the next id and saves. The source returns
     nothing; the new id is returned here so that callers can name the new bookmark.
     */
    method AddBookmark(title: string, category: string, url: string) returns (newId: int)
      modifies this
      ensures newId == NextId(old(bookmarks)) && !HasId(old(bookmarks), newId)
      ensures bookmarks == Added(old(bookmarks), title, category, url)
      ensures FirstIndexOf(bookmarks, newId) == Some(|old(bookmarks)|)
      ensures UniqueIds(old(bookmarks)) ==> UniqueIds(bookmarks)
      ensures InSync() && DecodeAll(persisted.value) == Ok(bookmarks)
    {
      newId := GetNextId();
      if UniqueIds(bookmarks) {
        AddPreservesUniqueIds(bookmarks, title, category, url);
      }
      AddedFindsNewest(bookmarks, title, category, url);
      var bookmark := Bookmark(newId, title, category, url);
      bookmarks := bookmarks + [bookmark];
      SaveBookmarks();
    }

    /** `search_bookmarks`: collects, in list order, the bookmarks matching on title, category or url. */
    method SearchBookmarks(query: string, matches: (string, string) -> bool) returns (results: seq<Bookmark>)
      ensures results == Search(bookmarks, query, matches)
      ensures forall b :: b in results <==> b in bookmarks && MatchesAnyField(matches, query, b)
    {
      results := [];
      var i := 0;
      while i < |bookmarks|
        invariant 0 <= i <= |bookmarks|
        invariant results == Search(bookmarks[..i], query, matches)
      {
        var bookmark := bookmarks[i];
        SearchAppend(bookmarks[..i], [bookmark], query, matches);
        assert bookmarks[..i + 1] == bookmarks[..i] + [bookmark];
        if MatchesAnyField(matches, query, bookmark) {
          results := results + [bookmark];
        }
        i := i + 1;
      }
      assert bookmarks[..i] == bookmarks;
      SearchExactly(bookmarks, query, matches);
    }

    /**
     `delete_bookmark`: removes the first bookmark with id `k` and saves, reporting True;
     reports False and changes nothing when no bookmark has that id.
     */
    method DeleteBookmark(k: int) returns (found: bool)
      modifies this
      ensures found <==> HasId(old(bookmarks), k)
      ensures bookmarks == Deleted(old(bookmarks), k)
      ensures UniqueIds(old(bookmarks)) ==> UniqueIds(bookmarks) && !HasId(bookmarks, k)
      ensures found ==> InSync() && DecodeAll(persisted.value) == Ok(bookmarks)
      ensures !found ==> persisted == old(persisted)
    {
      var i := 0;
      while i < |bookmarks|
        invariant 0 <= i <= |bookmarks|
        invariant bookmarks == old(bookmarks) && persisted == old(persisted)
        invariant forall j :: 0 <= j < i ==> bookmarks[j].id != k
      {
        if bookmarks[i].id == k {
          if UniqueIds(bookmarks) {
            DeletePreservesUniqueIds(bookmarks, k);
            DeleteTwiceFindsNothing(bookmarks, k);
          }
          bookmarks := bookmarks[..i] + bookmarks[i + 1..];
          SaveBookmarks();
          return true;
        }
        i := i + 1;
      }
      return false;
    }

    /**
     `edit_bookmark`: gives the first bookmark with id `k` the new title, category and url
     (its id is untouched) and saves, reporting True; reports False and changes nothing
     when no bookmark has that id.
     */
    method EditBookmark(k: int, title: string, category: string, url: string) returns (found: bool)
      modifies this
      ensures found <==> HasId(old(bookmarks), k)
      ensures bookmarks == Edited(old(bookmarks), k, title, category, url)
      ensures UniqueIds(old(bookmarks)) ==> UniqueIds(bookmarks)
      ensures NextId(bookmarks) == NextId(old(bookmarks))
      ensures found ==> InSync() && DecodeAll(persisted.value) == Ok(bookmarks)
      ensures !found ==> persisted == old(persisted)
    {
      ghost var edited := Edited(bookmarks, k, title, category, url);
      EditKeepsNextId(bookmarks, k, title, category, url);
      if UniqueIds(bookmarks) {
        EditPreservesUniqueIds(bookmarks, k, title, category, url);
      }
      var i := 0;
      while i < |bookmarks|
        invariant 0 <= i <= |bookmarks|
        invariant bookmarks == old(bookmarks) && persisted == old(persisted)
        invariant forall j :: 0 <= j < i ==> bookmarks[j].id != k
      {
        if bookmarks[i].id == k {
          var bookmark := bookmarks[i].(title := title, category := category, url := url);
          bookmarks := bookmarks[i := bookmark];
          assert bookmarks == edited;
          SaveBookmarks();
          return true;
        }
        i := i + 1;
      }
      return false;
    }
  }
}
