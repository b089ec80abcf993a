# BookmarkMe bookmark store, modelled in Dafny

BookmarkMe is a desktop bookmark manager. This project models its in-memory
store: the `Bookmark` record with its conversion to and from a key/value
mapping, and `BookmarkManager`. The manager keeps an ordered list of bookmarks.
It gives out ids by the "largest present id plus one" rule, appends new
bookmarks, searches on title, category or url, and deletes or edits the first
bookmark with a given id. The file is written again after every successful
change.

Files:

- `records.dfy` (module `Records`): the `Bookmark` datatype (its fields default
  to `0`, `""`, `""`, `""`) and `Value`, a value held in a mapping (an integer
  or a text). Also `ToDict` and `FromDict`, plus `EncodeAll` and `DecodeAll`,
  the per-item list comprehensions of save and load.
- `store.dfy` (module `Store`): each manager operation written as a function of
  the list (`NextId`, `Added`, `Deleted`, `Edited`, `Search`, with `MaxId` and
  `FirstIndexOf`), and lemmas about them. The lemmas cover fresh ids, id
  uniqueness, a second delete, edit idempotence, search order and membership,
  and a whole session.
- `manager.dfy` (module `Manager`): class `BookmarkManager` with a `bookmarks:
  seq<Bookmark>` field that its methods reassign. Each method loops over the
  list as the Python does. Each is proved to produce exactly the matching
  `Store` function. A ghost field `persisted` holds the document the last save
  wrote.

The regular-expression test of `search_bookmarks` is the parameter
`matches: (string, string) -> bool`. Here `matches(query, text)` stands for
`re.search(query, text, re.IGNORECASE)` finding a match.

## Model

| member | source | states |
|---|---|---|
| Records.ToDict | bookmark_me.py:18-19 | the mapping has exactly the keys id, title, category, url, each holding the bookmark's field |
| Records.FromDict | bookmark_me.py:21-23 | decoding succeeds exactly when each key that is present holds a value of the right kind; each field is then the key's value, or its constructor default (0 or empty text) when the key is missing |
| Records.FromDictToDict | bookmark_me.py:18-23 | from_dict(to_dict(b)) gives b back for every bookmark |
| Records.ToDictFromDict | bookmark_me.py:18-23 | a well-typed mapping with exactly the four keys gives the same mapping after decoding and encoding again |
| Records.FromDictEmpty | bookmark_me.py:12-23 | the empty mapping decodes to Bookmark(0, "", "", "") |
| Records.FromDictIgnoresOtherKeys | bookmark_me.py:21-23 | keys other than the four do not affect decoding |
| Records.ToDictInjective | bookmark_me.py:18-19 | different bookmarks have different mappings |
| Records.EncodeAll | bookmark_me.py:48 | the saved document has one mapping per bookmark, in list order |
| Records.DecodeAll | bookmark_me.py:37 | loading succeeds exactly when every item decodes; the result then has one bookmark per item, in order |
| Records.DecodeAllEncodeAll | bookmark_me.py:37-48 | loading the saved document gives back the same bookmarks in the same order |
| Store.MaxId | bookmark_me.py:58 | the largest id is the id of some bookmark and no id is larger |
| Store.NextId | bookmark_me.py:53-60 | 1 for an empty list; otherwise one more than an id present, and larger than every id present |
| Store.FirstIndexOf | bookmark_me.py:83-84 | either no bookmark has id k, or the index of a bookmark with id k such that no earlier bookmark has it |
| Store.Added | bookmark_me.py:62-66 | one element longer, the old list unchanged as its prefix, and the new last element is Bookmark(next id, title, category, url) |
| Store.Deleted | bookmark_me.py:81-90 | unchanged when the id is absent; otherwise one shorter, with the first bookmark having that id removed and the others kept in order |
| Store.Edited | bookmark_me.py:92-103 | same length; unchanged when the id is absent; otherwise the first bookmark with id k becomes Bookmark(k, title, category, url) and every other element is unchanged |
| Store.Search | bookmark_me.py:70-79 | the result is no longer than the list and contains only bookmarks from the list |
| Store.NextIdIsFresh | bookmark_me.py:53-60 | no bookmark present has the next id |
| Store.NextIdPositive | bookmark_me.py:53-60 | when all ids are non-negative, the next id is at least 1 |
| Store.MaxIdDependsOnIds | bookmark_me.py:58 | the largest id depends only on the ids, position by position |
| Store.DeleteNewestReissuesId | bookmark_me.py:58 | deleting the bookmark just added restores the list, so its id is handed out again (max+1 policy, not a counter) |
| Store.AddPreservesUniqueIds | bookmark_me.py:62-66 | pairwise distinct ids stay pairwise distinct after an add |
| Store.AddPreservesNonNegativeIds | bookmark_me.py:62-66 | non-negative ids stay non-negative after an add |
| Store.AddedFindsNewest | bookmark_me.py:62-66 | searching the new list for the id just given out finds the appended bookmark at the old length |
| Store.DeletedRemovesOne | bookmark_me.py:83-85 | as a multiset, the new list plus the removed bookmark equals the old list |
| Store.DeletePreservesUniqueIds | bookmark_me.py:81-90 | pairwise distinct ids stay pairwise distinct after a delete |
| Store.DeleteTwiceFindsNothing | bookmark_me.py:81-90 | with distinct ids, the deleted id is gone, so a second delete of it changes nothing |
| Store.EditKeepsIds | bookmark_me.py:94-98 | an edit changes no id at any position |
| Store.EditKeepsNextId | bookmark_me.py:94-98 | an edit does not change the next id |
| Store.EditPreservesUniqueIds | bookmark_me.py:94-98 | pairwise distinct ids stay pairwise distinct after an edit |
| Store.EditIdempotent | bookmark_me.py:92-103 | repeating the same edit changes nothing further |
| Store.SearchAppend | bookmark_me.py:72-77 | searching a concatenation gives the concatenation of the two searches, so list order is kept |
| Store.SearchExactly | bookmark_me.py:72-77 | a bookmark is in the result exactly when it is in the list and matches on title, category or url |
| Store.SearchKeepsMultiplicity | bookmark_me.py:72-77 | a matching bookmark occurs in the result as often as in the list; a non-matching one does not occur |
| Store.SearchEmpty | bookmark_me.py:72-79 | the result is empty exactly when no bookmark matches |
| Store.SearchAllMatch | bookmark_me.py:72-79 | when every bookmark matches, the result is the whole list |
| Store.SearchIdempotent | bookmark_me.py:72-79 | searching a search result with the same query gives the same result |
| Store.SessionIdsFollowLargestPresent | bookmark_me.py:53-90 | from empty, two adds get ids 1 and 2; deleting 1 leaves only 2; the next add gets 3 |
| Manager.BookmarkManager.constructor | bookmark_me.py:27-30 | the manager starts with the loaded list and nothing written |
| Manager.BookmarkManager.SaveBookmarks | bookmark_me.py:45-51 | the file holds one mapping per bookmark, and loading it back gives the in-memory list |
| Manager.BookmarkManager.GetNextId | bookmark_me.py:53-60 | the loop's result is NextId of the list, which no bookmark present has |
| Manager.BookmarkManager.AddBookmark | bookmark_me.py:62-68 | the list becomes Added(old list); the returned id was unused and now finds the appended bookmark; distinct ids stay distinct; the file is in sync |
| Manager.BookmarkManager.SearchBookmarks | bookmark_me.py:70-79 | the collected result is Search of the list: exactly the matching bookmarks, in list order; the store is not changed |
| Manager.BookmarkManager.DeleteBookmark | bookmark_me.py:81-90 | reports True exactly when the id is present; the list becomes Deleted(old list); with distinct ids the id is then absent; the file is rewritten only on success |
| Manager.BookmarkManager.EditBookmark | bookmark_me.py:92-103 | reports True exactly when the id is present; the list becomes Edited(old list); ids and the next id are unchanged; the file is rewritten only on success |

## Left out

- `AddBookmark` returns the new id. The Python `add_bookmark` returns nothing; the returned value is `NextId` of the old list.
- Reading and writing the file, and JSON text, are not modelled. `load_bookmarks` is modelled only through `DecodeAll` (its line 37 comprehension); the constructor takes the loaded list as a parameter. `save_bookmarks` is modelled as assigning the ghost `persisted` document.
- Load errors are not modelled. The source turns a missing file or invalid JSON into an empty list. Other malformed content may raise. A non-empty top-level value that is not a list raises, as do items that are not mappings and an id that `int()` rejects. An empty object or empty string at top level loads as an empty list. A non-text field is stored as it is.
- `SaveBookmarks`: a failed write is not modelled. The source catches every exception there and keeps going, so its file can be stale while memory is not. The model always counts a save as written.
- `FromDict`: a value of the wrong kind gives `Err`. In the source, `int(id)` coerces: it accepts a numeric string and raises on other text. A non-text title, category or url is stored unchanged. The model also does not coerce a float id; mapping values are only integers or texts.
- `Store.MatchesAnyField` is the three-field test of bookmark_me.py lines 74-76. The regex engine, `re.search` with `re.IGNORECASE`, is the parameter `matches`. Case folding, pattern syntax, and the exception on a malformed pattern are not modelled.
- Aliasing is not modelled. In the source, `search_bookmarks` returns the same `Bookmark` objects the store holds, so a later `edit_bookmark` also changes a result list obtained earlier. The model's bookmarks are values, so earlier search results do not change.
- Logging calls (`log_debug`, `log_error`), the hard-coded file path, and the tkinter `BookmarkApp` interface are not modelled. That includes the interface's check for a non-empty title and url, and its delete confirmation.
- Unique ids are not enforced. The source never checks them, and a loaded file may contain duplicates. The model states uniqueness as `Store.UniqueIds` and proves that every operation keeps it when it held before.
