/** One catalog entry (class `Book` in library.py) and its conversion to and
    from the plain dictionary that is written to the JSON store. */
module Books {
  import opened Wrappers

  /** Status given to every new book ("in stock"). */
  const Available: string := "в наличии"
  /** The other conventional status ("issued"); any text may be stored. */
  const Issued: string := "выдана"

  /** A book: its identifier, title, author, year of publication and status. */
  datatype Book = Book(bookId: int, title: string, author: string, year: int, status: string)

  /** The scalar values a JSON document can hold in a field. */
  datatype Json = Null | Bool(b: bool) | Int(i: int) | Str(s: string)

  /** A decoded JSON object. */
  type Dict = map<string, Json>

  /** The keys of a serialised book. */
  const Keys: set<string> := {"id", "title", "author", "year", "status"}

  /** The dictionary form of a book: exactly the five keys, each holding the
      attribute of the same meaning. */
  function ToDict(b: Book): (d: Dict)
    ensures d.Keys == Keys
    ensures d["id"] == Int(b.bookId) && d["year"] == Int(b.year)
    ensures d["title"] == Str(b.title) && d["author"] == Str(b.author) && d["status"] == Str(b.status)
  {
    map["id" := Int(b.bookId), "title" := Str(b.title), "author" := Str(b.author),
        "year" := Int(b.year), "status" := Str(b.status)]
  }

  /** Every key a book needs is present and holds a value of the field's type. */
  predicate WellFormed(d: Dict)
  {
    && "id" in d && d["id"].Int?
    && "title" in d && d["title"].Str?
    && "author" in d && d["author"].Str?
    && "year" in d && d["year"].Int?
    && "status" in d && d["status"].Str?
  }

  /** The book a dictionary describes; `None` where reading a key would fail.
      Keys other than the five are ignored. */
  function FromDict(d: Dict): (r: Option<Book>)
    ensures r.Some? <==> WellFormed(d)
  {
    if WellFormed(d) then
      Some(Book(d["id"].i, d["title"].s, d["author"].s, d["year"].i, d["status"].s))
    else
      None
  }

  /** Reading back the dictionary of a book gives the same book. */
  lemma FromDictToDict(b: Book)
    ensures FromDict(ToDict(b)) == Some(b)
  {
  }

  /** Conversely, a dictionary that reads as a book agrees with that book's
      dictionary on the five keys: nothing the book records is lost. */
  lemma ToDictFromDict(d: Dict, b: Book)
    requires FromDict(d) == Some(b)
    ensures forall k :: k in Keys ==> k in d && ToDict(b)[k] == d[k]
  {
  }

  /** The file contents written for a sequence of books, in order. */
  function EncodeAll(bs: seq<Book>): (ds: seq<Dict>)
    ensures |ds| == |bs|
    ensures forall i :: 0 <= i < |bs| ==> FromDict(ds[i]) == Some(bs[i])
  {
    seq(|bs|, i requires 0 <= i < |bs| => ToDict(bs[i]))
  }

  /** The books a sequence of dictionaries describes, in order; `None` as soon
      as one of them does not read as a book. */
  function DecodeAll(ds: seq<Dict>): (r: Option<seq<Book>>)
    ensures r.Some? <==> forall i :: 0 <= i < |ds| ==> WellFormed(ds[i])
    ensures r.Some? ==> |r.value| == |ds| && forall i :: 0 <= i < |ds| ==> FromDict(ds[i]) == Some(r.value[i])
  {
    if ds == [] then Some([])
    else
      match FromDict(ds[0])
      case None => None
      case Some(b) =>
        match DecodeAll(ds[1..])
        case None => None
        case Some(rest) => Some([b] + rest)
  }

  /** Saving and then loading gives back the same books in the same order. */
  lemma DecodeEncode(bs: seq<Book>)
    ensures DecodeAll(EncodeAll(bs)) == Some(bs)
  {
    var r := DecodeAll(EncodeAll(bs));
    assert r.Some?;
    assert r.value == bs;
  }
}
