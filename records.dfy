/**
 The bookmark record and its conversion to and from the key/value mapping
 that the store writes to (and reads back from) its backing file.
 */
module Records {

  datatype Option<T> = None | Some(value: T)

  /** Why a mapping could not be turned into a bookmark. */
  datatype DecodeError = IdNotInteger | FieldNotText(key: string)

  datatype Result<T> = Ok(value: T) | Err(error: DecodeError)

  /** A value stored under one key of a bookmark's mapping. */
  datatype Value = Int(i: int) | Text(s: string)

  /** One stored bookmark; every field has the default the source's constructor gives it. */
  datatype Bookmark = Bookmark(id: int := 0, title: string := "", category: string := "", url: string := "")

  /** The four keys of a bookmark's mapping. */
  const Keys: set<string> := {"id", "title", "category", "url"}

  /** The value a bookmark holds under `key`, in mapping form. */
  function Field(b: Bookmark, key: string): Value
    requires key in Keys
  {
    if key == "id" then Int(b.id)
    else if key == "title" then Text(b.title)
    else if key == "category" then Text(b.category)
    else Text(b.url)
  }

  /** The value decoding substitutes when `key` is missing: the constructor's default. */
  function Default(key: string): Value
    requires key in Keys
  {
    Field(Bookmark(), key)
  }

  /** `m.get(key, default)`: the stored value, or the default when the key is absent. */
  function Get(m: map<string, Value>, key: string): Value
    requires key in Keys
  {
    if key in m then m[key] else Default(key)
  }

  /** Every key that is present holds a value of the kind its field needs. */
  predicate WellTyped(m: map<string, Value>) {
    && ("id" in m ==> m["id"].Int?)
    && ("title" in m ==> m["title"].Text?)
    && ("category" in m ==> m["category"].Text?)
    && ("url" in m ==> m["url"].Text?)
  }

  /** `Bookmark.to_dict`: the mapping with exactly the four keys. */
  function ToDict(b: Bookmark): (m: map<string, Value>)
    ensures m.Keys == Keys
    ensures forall k :: k in m ==> m[k] == Field(b, k)
  {
    map["id" := Int(b.id), "title" := Text(b.title), "category" := Text(b.category), "url" := Text(b.url)]
  }

  function TextOr(m: map<string, Value>, key: string): Result<string>
    requires key in Keys - {"id"}
  {
    match Get(m, key)
    case Text(s) => Ok(s)
    case Int(_) => Err(FieldNotText(key))
  }

  /**
   `Bookmark.from_dict`: each field is read with `get`, so a missing key yields the
   field's default and keys other than the four are ignored.
   */
  function FromDict(m: map<string, Value>): (r: Result<Bookmark>)
    ensures r.Ok? <==> WellTyped(m)
    ensures r.Ok? ==> forall k :: k in Keys ==> Field(r.value, k) == Get(m, k)
  {
    match Get(m, "id")
    case Text(_) => Err(IdNotInteger)
    case Int(id) =>
      match TextOr(m, "title")
      case Err(e) => Err(e)
      case Ok(title) =>
        match TextOr(m, "category")
        case Err(e) => Err(e)
        case Ok(category) =>
          match TextOr(m, "url")
          case Err(e) => Err(e)
          case Ok(url) => Ok(Bookmark(id, title, category, url))
  }

  /** Decoding what `ToDict` produced gives the bookmark back. */
  lemma FromDictToDict(b: Bookmark)
    ensures FromDict(ToDict(b)) == Ok(b)
  {
  }

  /** A well-typed mapping with exactly the four keys survives a decode and re-encode unchanged. */
  lemma ToDictFromDict(m: map<string, Value>)
    requires m.Keys == Keys && WellTyped(m)
    ensures FromDict(m).Ok? && ToDict(FromDict(m).value) == m
  {
    var d := ToDict(FromDict(m).value);
    forall k | k in Keys
      ensures d[k] == m[k]
    {
      assert Get(m, k) == m[k];
    }
  }

  /** The empty mapping decodes to the all-default bookmark. */
  lemma FromDictEmpty()
    ensures FromDict(map[]) == Ok(Bookmark(0, "", "", ""))
  {
  }

  /** Keys outside the four have no effect on decoding. */
  lemma FromDictIgnoresOtherKeys(m: map<string, Value>)
    ensures FromDict(m) == FromDict(map k | k in m && k in Keys :: m[k])
  {
  }

  /** Two bookmarks with the same mapping are the same bookmark. */
  lemma ToDictInjective(a: Bookmark, b: Bookmark)
    requires ToDict(a) == ToDict(b)
    ensures a == b
  {
    FromDictToDict(a);
    FromDictToDict(b);
  }

  /** The list of mappings that `save_bookmarks` writes: one `to_dict` per bookmark, in order. */
  function EncodeAll(bs: seq<Bookmark>): (doc: seq<map<string, Value>>)
    ensures |doc| == |bs|
    ensures forall i :: 0 <= i < |bs| ==> doc[i] == ToDict(bs[i])
  {
    if bs == [] then [] else [ToDict(bs[0])] + EncodeAll(bs[1..])
  }

  /**
   The list comprehension of `load_bookmarks`: one `from_dict` per item, in order;
   the first item that cannot be decoded aborts the whole load.
   */
  function DecodeAll(doc: seq<map<string, Value>>): (r: Result<seq<Bookmark>>)
    ensures r.Ok? <==> forall i :: 0 <= i < |doc| ==> WellTyped(doc[i])
    ensures r.Ok? ==> |r.value| == |doc| && forall i :: 0 <= i < |doc| ==> FromDict(doc[i]) == Ok(r.value[i])
  {
    if doc == [] then Ok([])
    else
      match FromDict(doc[0])
      case Err(e) => Err(e)
      case Ok(b) =>
        match DecodeAll(doc[1..])
        case Err(e) => Err(e)
        case Ok(rest) => Ok([b] + rest)
  }

  /** Loading what was saved gives back the same bookmarks in the same order. */
  lemma {:induction false} DecodeAllEncodeAll(bs: seq<Bookmark>)
    ensures DecodeAll(EncodeAll(bs)) == Ok(bs)
  {
    if bs != [] {
      FromDictToDict(bs[0]);
      DecodeAllEncodeAll(bs[1..]);
      var doc := EncodeAll(bs);
      assert doc[0] == ToDict(bs[0]) && doc[1..] == EncodeAll(bs[1..]);
      assert [bs[0]] + bs[1..] == bs;
    }
  }
}
