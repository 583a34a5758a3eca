/** The book table that the router reads (`books`, loaded from booksdb.js) and the
    queries over it that the handlers share: keyed lookup, `Object.values` and the
    case-insensitive field filter. */
module Catalog {
  import opened Text
  import opened JsValues

  datatype Option<T> = None | Some(value: T)

  /** One record of the table. `reviews` is whatever the record holds under that
      property (an object of reviewer -> text in practice, `Undefined` if absent). */
  datatype Book = Book(author: string, title: string, reviews: JsValue)

  /** The table as its entries (ISBN key, record), in the order `Object.values` visits them. */
  type Table = seq<(string, Book)>

  ghost predicate HasKey(t: Table, key: string) {
    exists i :: 0 <= i < |t| && t[i].0 == key
  }

  /** A JavaScript object never holds the same property twice. */
  ghost predicate DistinctKeys(t: Table) {
    forall i, j :: 0 <= i < j < |t| ==> t[i].0 != t[j].0
  }

  /** `books[key]`: the record stored under `key`, if any. */
  function Get(t: Table, key: string): (r: Option<Book>)
    ensures r.Some? <==> HasKey(t, key)
    ensures r.Some? ==> (key, r.value) in t
  {
    if t == [] then None
    else if t[0].0 == key then Some(t[0].1)
    else
      assert forall i :: 1 <= i < |t| ==> t[i] == t[1..][i - 1];
      Get(t[1..], key)
  }

  /** In a table with distinct keys, the entry stored under a key is what `Get` returns. */
  lemma GetFindsEntry(t: Table, key: string, b: Book)
    requires DistinctKeys(t)
    requires (key, b) in t
    ensures Get(t, key) == Some(b)
  {
  }

  /** `Object.values(books)`: the records in table order. */
  function Values(t: Table): (r: seq<Book>)
    ensures |r| == |t|
    ensures forall i :: 0 <= i < |t| ==> r[i] == t[i].1
  {
    if t == [] then [] else [t[0].1] + Values(t[1..])
  }

  /** The two fields the router searches on. */
  datatype Field = Author | Title

  function FieldOf(b: Book, f: Field): string {
    match f
    case Author => b.author
    case Title => b.title
  }

  /** The filter callback: `book.<field>.toLowerCase() === needle`, where the handler has
      already lowered the query into `needle`. */
  predicate Matches(b: Book, f: Field, needle: string): (m: bool)
    ensures m <==> (|FieldOf(b, f)| == |needle| &&
                    forall i :: 0 <= i < |needle| ==> LowerChar(FieldOf(b, f)[i]) == needle[i])
  {
    Lower(FieldOf(b, f)) == needle
  }

  /** `records.filter(book => Matches(book, f, needle))`. */
  function Select(bs: seq<Book>, f: Field, needle: string): (r: seq<Book>)
    ensures |r| <= |bs|
    ensures forall b :: b in r <==> b in bs && Matches(b, f, needle)
  {
    if bs == [] then []
    else
      assert forall b :: b in bs <==> b == bs[0] || b in bs[1..];
      (if Matches(bs[0], f, needle) then [bs[0]] else []) + Select(bs[1..], f, needle)
  }

  /** Filtering keeps table order: it distributes over concatenation. */
  lemma {:induction false} SelectAppend(xs: seq<Book>, ys: seq<Book>, f: Field, needle: string)
    ensures Select(xs + ys, f, needle) == Select(xs, f, needle) + Select(ys, f, needle)
  {
    if xs != [] {
      assert (xs + ys)[0] == xs[0];
      assert (xs + ys)[1..] == xs[1..] + ys;
      SelectAppend(xs[1..], ys, f, needle);
    } else {
      assert xs + ys == ys;
    }
  }

  /** Filtering keeps every copy of a matching record and no copy of another one. */
  lemma {:induction false} SelectCounts(bs: seq<Book>, f: Field, needle: string, b: Book)
    ensures multiset(Select(bs, f, needle))[b] == if Matches(b, f, needle) then multiset(bs)[b] else 0
  {
    if bs != [] {
      assert bs == [bs[0]] + bs[1..];
      SelectCounts(bs[1..], f, needle, b);
    }
  }
}
