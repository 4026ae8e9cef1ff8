/** The parts of an ebooklib `EpubBook` the converters read: its items in
    `get_items()` order, the first value of each Dublin Core `title` and
    `creator` entry, and the spine as a list of item ids. An item's type is
    the integer `get_type()` returns. */
module Epub {
  import opened Wrappers

  datatype Item = Item(id: string, name: string, kind: int, content: seq<byte>)

  datatype Book = Book(
    items: seq<Item>,
    titles: seq<string>,
    creators: seq<string>,
    spine: seq<string>)

  /** The type code the converters treat as a document. */
  const DOCUMENT := 9

  /** `book.get_item_with_id(id)`: the first item carrying that id. */
  function ItemWithId(items: seq<Item>, id: string): (r: Option<Item>)
    ensures r.Some? ==> r.value in items && r.value.id == id
    ensures r.None? <==> forall k :: 0 <= k < |items| ==> items[k].id != id
  {
    if items == [] then None
    else if items[0].id == id then Some(items[0])
    else ItemWithId(items[1..], id)
  }

  /** When several items share an id, the first one is returned. */
  lemma {:induction false} ItemWithIdFirst(items: seq<Item>, id: string, j: nat)
    requires j < |items| && items[j].id == id
    requires forall k :: 0 <= k < j ==> items[k].id != id
    ensures ItemWithId(items, id) == Some(items[j])
  {
    if j > 0 {
      ItemWithIdFirst(items[1..], id, j - 1);
    }
  }

  /** The concatenation of `f(x)` over `xs`, in order: the list a loop builds
      by appending, item by item, what it makes of each one. */
  function ConcatMap<T, U>(xs: seq<T>, f: T -> seq<U>): (r: seq<U>)
    decreases |xs|
  {
    if xs == [] then [] else ConcatMap(xs[..|xs| - 1], f) + f(xs[|xs| - 1])
  }

  lemma {:induction false} ConcatMapAppend<T, U>(a: seq<T>, b: seq<T>, f: T -> seq<U>)
    ensures ConcatMap(a + b, f) == ConcatMap(a, f) + ConcatMap(b, f)
    decreases |b|
  {
    if b != [] {
      var b' := b[..|b| - 1];
      assert (a + b)[..|a + b| - 1] == a + b';
      ConcatMapAppend(a, b', f);
    } else {
      assert a + b == a;
    }
  }

  /** One more element of a prefix adds its own image at the end. */
  lemma ConcatMapPrefix<T, U>(xs: seq<T>, i: nat, f: T -> seq<U>)
    requires i < |xs|
    ensures ConcatMap(xs[..i + 1], f) == ConcatMap(xs[..i], f) + f(xs[i])
  {
    assert xs[..i + 1][..i] == xs[..i];
  }

  /** The `j`th element contributes its own image at its place: what comes
      before it, then `f(xs[j])`, then what comes after it. */
  lemma ConcatMapAt<T, U>(xs: seq<T>, j: nat, f: T -> seq<U>)
    requires j < |xs|
    ensures ConcatMap(xs, f) == ConcatMap(xs[..j], f) + f(xs[j]) + ConcatMap(xs[j + 1..], f)
  {
    assert xs == xs[..j] + [xs[j]] + xs[j + 1..];
    ConcatMapAppend(xs[..j] + [xs[j]], xs[j + 1..], f);
    ConcatMapAppend(xs[..j], [xs[j]], f);
    assert ConcatMap([xs[j]], f) == ConcatMap([], f) + f(xs[j]);
  }
}
