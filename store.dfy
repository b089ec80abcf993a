/**
 The bookmark store's operations as functions of the ordered list of bookmarks,
 with the properties the store relies on. The class in module Manager is proved
 to compute exactly these functions.
 */
module Store {
  import opened Records

  /** No two bookmarks in the list share an id (the store's intended invariant; the code never checks it). */
  ghost predicate UniqueIds(bs: seq<Bookmark>) {
    forall i, j :: 0 <= i < j < |bs| ==> bs[i].id != bs[j].id
  }

  /** Some bookmark in the list has id `k`. */
  ghost predicate HasId(bs: seq<Bookmark>, k: int) {
    exists i :: 0 <= i < |bs| && bs[i].id == k
  }

  /** Every id in the list is non-negative. */
  ghost predicate NonNegativeIds(bs: seq<Bookmark>) {
    forall i :: 0 <= i < |bs| ==> bs[i].id >= 0
  }

  /** `max(bm.id for bm in bookmarks)`: an id present in the list and no smaller than any other. */
  function MaxId(bs: seq<Bookmark>): (m: int)
    requires bs != []
    ensures exists i :: 0 <= i < |bs| && bs[i].id == m
    ensures forall i :: 0 <= i < |bs| ==> bs[i].id <= m
  {
    if |bs| == 1 then bs[0].id
    else
      var rest := MaxId(bs[1..]);
      if bs[0].id >= rest then bs[0].id else rest
  }

  /** `get_next_id`: 1 for an empty list, otherwise one more than the largest id present. */
  function NextId(bs: seq<Bookmark>): (r: int)
    ensures bs == [] ==> r == 1
    ensures bs != [] ==> HasId(bs, r - 1)
    ensures forall i :: 0 <= i < |bs| ==> bs[i].id < r
  {
    if bs == [] then 1 else MaxId(bs) + 1
  }

  /** The index at which the `for ... enumerate` loops of delete and edit stop: the first bookmark with id `k`. */
  function FirstIndexOf(bs: seq<Bookmark>, k: int): (r: Option<nat>)
    ensures r.None? <==> !HasId(bs, k)
    ensures r.Some? ==> r.value < |bs| && bs[r.value].id == k
    ensures r.Some? ==> forall j :: 0 <= j < r.value ==> bs[j].id != k
  {
    if bs == [] then None
    else if bs[0].id == k then Some(0)
    else
      match FirstIndexOf(bs[1..], k)
      case None => None
      case Some(i) => Some(i + 1)
  }

  /** `add_bookmark`: the list with a new bookmark, carrying the next id, appended. */
  function Added(bs: seq<Bookmark>, title: string, category: string, url: string): (r: seq<Bookmark>)
    ensures |r| == |bs| + 1 && r[..|bs|] == bs
    ensures r[|bs|] == Bookmark(NextId(bs), title, category, url)
  {
    bs + [Bookmark(NextId(bs), title, category, url)]
  }

  /** `delete_bookmark`: the list without its first bookmark with id `k`; unchanged when there is none. */
  function Deleted(bs: seq<Bookmark>, k: int): (r: seq<Bookmark>)
    ensures !HasId(bs, k) ==> r == bs
    ensures HasId(bs, k) ==> |r| == |bs| - 1
    ensures HasId(bs, k) ==>
      var i := FirstIndexOf(bs, k).value;
      (forall j :: 0 <= j < i ==> r[j] == bs[j]) && (forall j :: i <= j < |r| ==> r[j] == bs[j + 1])
  {
    match FirstIndexOf(bs, k)
    case None => bs
    case Some(i) => bs[..i] + bs[i + 1..]
  }

  /**
   `edit_bookmark`: the first bookmark with id `k` gets the new title, category and url
   and keeps its id; unchanged when there is none.
   */
  function Edited(bs: seq<Bookmark>, k: int, title: string, category: string, url: string): (r: seq<Bookmark>)
    ensures |r| == |bs|
    ensures !HasId(bs, k) ==> r == bs
    ensures HasId(bs, k) ==>
      var i := FirstIndexOf(bs, k).value;
      r[i] == Bookmark(k, title, category, url) && forall j :: 0 <= j < |bs| && j != i ==> r[j] == bs[j]
  {
    match FirstIndexOf(bs, k)
    case None => bs
    case Some(i) => bs[i := bs[i].(title := title, category := category, url := url)]
  }

  /**
   The condition of `search_bookmarks`: the query matches the title, the category or the url.
   `matches(query, text)` stands for the case-insensitive regular-expression search.
   */
  predicate MatchesAnyField(matches: (string, string) -> bool, query: string, b: Bookmark) {
    matches(query, b.title) || matches(query, b.category) || matches(query, b.url)
  }

  /** `search_bookmarks`: the matching bookmarks, kept in list order. */
  function Search(bs: seq<Bookmark>, query: string, matches: (string, string) -> bool): (r: seq<Bookmark>)
    ensures |r| <= |bs|
    ensures forall b :: b in r ==> b in bs
  {
    if bs == [] then []
    else (if MatchesAnyField(matches, query, bs[0]) then [bs[0]] else []) + Search(bs[1..], query, matches)
  }

  // ---------------------------------------------------------------------------
  // next id

  /** The next id is not the id of any bookmark present, so an add never collides. */
  lemma NextIdIsFresh(bs: seq<Bookmark>)
    ensures !HasId(bs, NextId(bs))
  {
  }

  /** With non-negative ids present, the next id is positive. */
  lemma NextIdPositive(bs: seq<Bookmark>)
    requires NonNegativeIds(bs)
    ensures NextId(bs) >= 1
  {
    if bs != [] {
      assert bs[0].id >= 0;
    }
  }

  /** Any two lists with the same ids in the same order get the same next id. */
  lemma {:induction false} MaxIdDependsOnIds(a: seq<Bookmark>, b: seq<Bookmark>)
    requires a != [] && |a| == |b|
    requires forall i :: 0 <= i < |a| ==> a[i].id == b[i].id
    ensures MaxId(a) == MaxId(b)
  {
    if |a| > 1 {
      MaxIdDependsOnIds(a[1..], b[1..]);
    }
  }

  /**
   Ids come from the largest id present, not from a running counter: deleting the
   newest bookmark makes its id the next one handed out again.
   */
  lemma DeleteNewestReissuesId(bs: seq<Bookmark>, title: string, category: string, url: string)
    ensures Deleted(Added(bs, title, category, url), NextId(bs)) == bs
    ensures NextId(Deleted(Added(bs, title, category, url), NextId(bs))) == NextId(bs)
  {
    var a := Added(bs, title, category, url);
    AddedFindsNewest(bs, title, category, url);
    assert a[..|bs|] == bs;
  }

  // ---------------------------------------------------------------------------
  // add

  /** Adding keeps the ids pairwise distinct when they were before. */
  lemma AddPreservesUniqueIds(bs: seq<Bookmark>, title: string, category: string, url: string)
    requires UniqueIds(bs)
    ensures UniqueIds(Added(bs, title, category, url))
  {
    var r := Added(bs, title, category, url);
    forall i, j | 0 <= i < j < |r|
      ensures r[i].id != r[j].id
    {
      if j == |bs| {
        assert r[i] == bs[i];
      } else {
        assert r[i] == bs[i] && r[j] == bs[j];
      }
    }
  }

  /** Adding keeps every id non-negative when they were before. */
  lemma AddPreservesNonNegativeIds(bs: seq<Bookmark>, title: string, category: string, url: string)
    requires NonNegativeIds(bs)
    ensures NonNegativeIds(Added(bs, title, category, url))
  {
    NextIdPositive(bs);
    var r := Added(bs, title, category, url);
    forall i | 0 <= i < |r|
      ensures r[i].id >= 0
    {
      if i < |bs| {
        assert r[i] == bs[i];
      }
    }
  }

  /** The id handed out by an add finds the new bookmark, at the end of the list. */
  lemma AddedFindsNewest(bs: seq<Bookmark>, title: string, category: string, url: string)
    ensures FirstIndexOf(Added(bs, title, category, url), NextId(bs)) == Some(|bs|)
  {
    var r := Added(bs, title, category, url);
    var k := NextId(bs);
    assert r[|bs|].id == k;
  }

  // ---------------------------------------------------------------------------
  // delete

  /** Deleting removes exactly one occurrence of the first matching bookmark. */
  lemma DeletedRemovesOne(bs: seq<Bookmark>, k: int)
    requires HasId(bs, k)
    ensures multiset(Deleted(bs, k)) + multiset{bs[FirstIndexOf(bs, k).value]} == multiset(bs)
  {
    var i := FirstIndexOf(bs, k).value;
    assert bs == bs[..i] + [bs[i]] + bs[i + 1..];
  }

  /** Deleting keeps the ids pairwise distinct when they were before. */
  lemma DeletePreservesUniqueIds(bs: seq<Bookmark>, k: int)
    requires UniqueIds(bs)
    ensures UniqueIds(Deleted(bs, k))
  {
    if HasId(bs, k) {
      var r := Deleted(bs, k);
      var n := FirstIndexOf(bs, k).value;
      forall i, j | 0 <= i < j < |r|
        ensures r[i].id != r[j].id
      {
        var i' := if i < n then i else i + 1;
        var j' := if j < n then j else j + 1;
        assert r[i] == bs[i'] && r[j] == bs[j'];
      }
    }
  }

  /** With distinct ids, a deleted id is gone: a second delete of it finds nothing. */
  lemma DeleteTwiceFindsNothing(bs: seq<Bookmark>, k: int)
    requires UniqueIds(bs)
    ensures !HasId(Deleted(bs, k), k)
    ensures Deleted(Deleted(bs, k), k) == Deleted(bs, k)
  {
    if HasId(bs, k) {
      var r := Deleted(bs, k);
      var n := FirstIndexOf(bs, k).value;
      forall j | 0 <= j < |r|
        ensures r[j].id != k
      {
        if j < n {
          assert r[j] == bs[j];
        } else {
          assert r[j] == bs[j + 1];
        }
      }
    }
  }

  // ---------------------------------------------------------------------------
  // edit

  /** Editing changes no id, anywhere in the list. */
  lemma EditKeepsIds(bs: seq<Bookmark>, k: int, title: string, category: string, url: string)
    ensures forall i :: 0 <= i < |bs| ==> Edited(bs, k, title, category, url)[i].id == bs[i].id
  {
  }

  /** Editing leaves the next id alone. */
  lemma EditKeepsNextId(bs: seq<Bookmark>, k: int, title: string, category: string, url: string)
    ensures NextId(Edited(bs, k, title, category, url)) == NextId(bs)
  {
    EditKeepsIds(bs, k, title, category, url);
    if bs != [] {
      MaxIdDependsOnIds(bs, Edited(bs, k, title, category, url));
    }
  }

  /** Editing keeps the ids pairwise distinct when they were before. */
  lemma EditPreservesUniqueIds(bs: seq<Bookmark>, k: int, title: string, category: string, url: string)
    requires UniqueIds(bs)
    ensures UniqueIds(Edited(bs, k, title, category, url))
  {
    EditKeepsIds(bs, k, title, category, url);
  }

  /** Repeating the same edit changes nothing further. */
  lemma EditIdempotent(bs: seq<Bookmark>, k: int, title: string, category: string, url: string)
    ensures Edited(Edited(bs, k, title, category, url), k, title, category, url) == Edited(bs, k, title, category, url)
  {
    var r := Edited(bs, k, title, category, url);
    if HasId(bs, k) {
      var n := FirstIndexOf(bs, k).value;
      assert r[n].id == k;
      EditKeepsIds(bs, k, title, category, url);
      assert FirstIndexOf(r, k) == Some(n);
    }
  }

  // ---------------------------------------------------------------------------
  // search

  /** Searching a concatenation searches each part and concatenates the results: order is kept. */
  lemma {:induction false} SearchAppend(a: seq<Bookmark>, b: seq<Bookmark>, query: string, matches: (string, string) -> bool)
    ensures Search(a + b, query, matches) == Search(a, query, matches) + Search(b, query, matches)
  {
    if a != [] {
      assert (a + b)[1..] == a[1..] + b;
      SearchAppend(a[1..], b, query, matches);
    } else {
      assert a + b == b;
    }
  }

  /** A bookmark is in the result exactly when it is in the list and matches. */
  lemma {:induction false} SearchExactly(bs: seq<Bookmark>, query: string, matches: (string, string) -> bool)
    ensures forall b :: b in Search(bs, query, matches) <==> b in bs && MatchesAnyField(matches, query, b)
  {
    if bs != [] {
      SearchExactly(bs[1..], query, matches);
      assert bs == [bs[0]] + bs[1..];
    }
  }

  /** Each bookmark appears in the result as often as it appears in the list, when it matches. */
  lemma {:induction false} SearchKeepsMultiplicity(bs: seq<Bookmark>, query: string, matches: (string, string) -> bool, b: Bookmark)
    ensures multiset(Search(bs, query, matches))[b] == if MatchesAnyField(matches, query, b) then multiset(bs)[b] else 0
  {
    if bs != [] {
      SearchKeepsMultiplicity(bs[1..], query, matches, b);
      assert bs == [bs[0]] + bs[1..];
    }
  }

  /** The result is empty exactly when nothing matches. */
  lemma SearchEmpty(bs: seq<Bookmark>, query: string, matches: (string, string) -> bool)
    ensures Search(bs, query, matches) == [] <==> forall i :: 0 <= i < |bs| ==> !MatchesAnyField(matches, query, bs[i])
  {
    SearchExactly(bs, query, matches);
    if Search(bs, query, matches) != [] {
      var b := Search(bs, query, matches)[0];
      assert b in Search(bs, query, matches);
    }
  }

  /** When everything matches, the result is the whole list. */
  lemma {:induction false} SearchAllMatch(bs: seq<Bookmark>, query: string, matches: (string, string) -> bool)
    requires forall i :: 0 <= i < |bs| ==> MatchesAnyField(matches, query, bs[i])
    ensures Search(bs, query, matches) == bs
  {
    if bs != [] {
      SearchAllMatch(bs[1..], query, matches);
      assert bs == [bs[0]] + bs[1..];
    }
  }

  /** Searching the result of a search with the same query gives the same result. */
  lemma SearchIdempotent(bs: seq<Bookmark>, query: string, matches: (string, string) -> bool)
    ensures Search(Search(bs, query, matches), query, matches) == Search(bs, query, matches)
  {
    var r := Search(bs, query, matches);
    SearchExactly(bs, query, matches);
    assert forall i :: 0 <= i < |r| ==> r[i] in r;
    SearchAllMatch(r, query, matches);
  }

  // ---------------------------------------------------------------------------
  // a session

  /**
   Starting empty: two adds get ids 1 and 2; deleting 1 succeeds and leaves only 2;
   the next add gets 3, one more than the largest id remaining.
   */
  lemma SessionIdsFollowLargestPresent()
    ensures
      var s1 := Added([], "Go Docs", "Programming", "https://go.dev");
      var s2 := Added(s1, "Rust Book", "Programming", "https://doc.rust-lang.org/book/");
      var s3 := Deleted(s2, 1);
      var s4 := Added(s3, "New", "Misc", "https://x");
      && s1[0].id == 1 && s2[1].id == 2
      && HasId(s2, 1) && |s3| == 1 && s3[0].id == 2
      && s4[1].id == 3
  {
    var s1 := Added([], "Go Docs", "Programming", "https://go.dev");
    var s2 := Added(s1, "Rust Book", "Programming", "https://doc.rust-lang.org/book/");
    assert s2[0].id == 1;
    var s3 := Deleted(s2, 1);
    assert FirstIndexOf(s2, 1) == Some(0);
    assert s3 == [s2[1]];
  }
}
