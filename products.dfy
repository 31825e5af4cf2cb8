/** The product table of the catalogue service: rows, column values, the
    error kinds the service raises and the messages they carry. */
module Products {
  import Decimal

  /** A column value as the store hands it over. Prices are kept as opaque
      integers; there is no float arithmetic in the service. */
  datatype Value = Int(i: int) | Str(s: string) | Bool(b: bool)

  /** The primary-key column; it is never a key of `Product.fields`. */
  const ID_KEY: string := "id"
  /** The soft-delete flag column. */
  const AVAILABLE_KEY: string := "available"

  /** One row: its store-generated id and every other column by name
      (`name`, `price`, `available`, and whatever the schema adds). */
  datatype Product = Product(id: int, fields: map<string, Value>)

  /** The filter `where: { available: true }`. */
  predicate Available(p: Product) {
    AVAILABLE_KEY in p.fields && p.fields[AVAILABLE_KEY] == Bool(true)
  }

  /** The failures the service reports; every one is a bad-request error. */
  datatype Error = NotFound(msg: string) | BadInput(msg: string) | BatchMismatch(msg: string)

  datatype Result<T> = Ok(value: T) | Err(error: Error)

  datatype Option<T> = None | Some(value: T)

  const NO_DATA_MESSAGE: string := "No data to update"
  const BATCH_MESSAGE: string := "some products not found"

  const NOT_FOUND_PREFIX: string := "Product with id #"
  const NOT_FOUND_SUFFIX: string := " not found"

  /** `Product with id #${id} not found`: the id can be read back from
      between the fixed prefix and suffix. */
  function NotFoundMessage(id: int): (m: string)
    ensures |m| > |NOT_FOUND_PREFIX| + |NOT_FOUND_SUFFIX|
    ensures m[..|NOT_FOUND_PREFIX|] == NOT_FOUND_PREFIX
    ensures m[|m| - |NOT_FOUND_SUFFIX|..] == NOT_FOUND_SUFFIX
    ensures var n := m[|NOT_FOUND_PREFIX|..|m| - |NOT_FOUND_SUFFIX|];
            Decimal.IsNumeral(n) && Decimal.ParseInt(n) == id
  {
    var n := Decimal.IntToString(id);
    var m := NOT_FOUND_PREFIX + n + NOT_FOUND_SUFFIX;
    Decimal.IntToStringRoundTrip(id);
    assert m[|NOT_FOUND_PREFIX|..|m| - |NOT_FOUND_SUFFIX|] == n;
    m
  }

  /** The update failure: the not-found message of the id, then
      `, update failed`. */
  function UpdateFailedMessage(id: int): (m: string)
    ensures |m| == |NotFoundMessage(id)| + |", update failed"|
    ensures m[..|NotFoundMessage(id)|] == NotFoundMessage(id)
    ensures m[|NotFoundMessage(id)|..] == ", update failed"
  {
    NotFoundMessage(id) + ", update failed"
  }

  /** The delete failure: the not-found message of the id, then
      `, delete failed, `, then `cause`, the store's own error message, kept
      verbatim. */
  function DeleteFailedMessage(id: int, cause: string): (m: string)
    ensures |m| == |NotFoundMessage(id)| + |", delete failed, "| + |cause|
    ensures m[..|NotFoundMessage(id)|] == NotFoundMessage(id)
    ensures m[|NotFoundMessage(id)|..|m| - |cause|] == ", delete failed, "
    ensures m[|m| - |cause|..] == cause
  {
    NotFoundMessage(id) + ", delete failed, " + cause
  }

  /** The not-found messages name the id they are about. */
  lemma NotFoundMessageNamesId(a: int, b: int)
    requires NotFoundMessage(a) == NotFoundMessage(b)
    ensures a == b
  {
  }

  /** The primary key is unique. */
  predicate UniqueIds(t: seq<Product>) {
    forall i, j :: 0 <= i < j < |t| ==> t[i].id != t[j].id
  }

  predicate HasId(t: seq<Product>, id: int) {
    exists i :: 0 <= i < |t| && t[i].id == id
  }

  /** What the product table always satisfies: unique ids, all below the
      store's next id, and no row carries an `id` column among its fields. */
  predicate TableInvariant(t: seq<Product>, nextId: int) {
    UniqueIds(t) &&
    forall i :: 0 <= i < |t| ==> t[i].id < nextId && ID_KEY !in t[i].fields
  }

  /** The position of the row whose primary key is `id` (the first one). */
  function Find(t: seq<Product>, id: int): (r: Option<nat>)
    ensures r.Some? <==> HasId(t, id)
    ensures r.Some? ==> r.value < |t| && t[r.value].id == id
    ensures r.Some? ==> forall j :: 0 <= j < r.value ==> t[j].id != id
  {
    if t == [] then None
    else if t[0].id == id then Some(0)
    else
      match Find(t[1..], id)
      case None =>
        assert forall i :: 0 < i < |t| ==> t[i].id == t[1..][i - 1].id;
        None
      case Some(k) => Some(k + 1)
  }

  /** With unique ids the row found is the only one carrying that id. */
  lemma FindUnique(t: seq<Product>, id: int, i: int)
    requires UniqueIds(t) && 0 <= i < |t| && t[i].id == id
    ensures Find(t, id) == Some(i)
  {
  }
}
