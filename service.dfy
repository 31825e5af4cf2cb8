/** The operations of the catalogue service that change the product table
    (`create`, `update`, `remove`), the service object that holds the table,
    and what the operations do to the queries. */
module Service {
  import opened Products
  import opened Queries

  /** What an operation answers and the table it leaves behind. */
  datatype Outcome = Outcome(result: Result<Product>, table: seq<Product>)

  // ----------------------------------------------------------------- update

  /** `const { id: __, ...data } = updateProductDto`. */
  function StripId(patch: map<string, Value>): (data: map<string, Value>)
    ensures ID_KEY !in data
    ensures forall k :: k in data <==> k in patch && k != ID_KEY
    ensures forall k :: k in data ==> data[k] == patch[k]
  {
    patch - {ID_KEY}
  }

  /** The store's `update({ where: { id }, data })` on one row: the given
      columns take the given values, the others keep theirs. */
  function ApplyPatch(p: Product, data: map<string, Value>): (q: Product)
    ensures q.id == p.id
    ensures q.fields.Keys == p.fields.Keys + data.Keys
    ensures forall k :: k in data ==> q.fields[k] == data[k]
    ensures forall k :: k in p.fields && k !in data ==> q.fields[k] == p.fields[k]
  {
    p.(fields := p.fields + data)
  }

  /** `update(id, updateProductDto)`. */
  function UpdateStep(t: seq<Product>, id: int, patch: map<string, Value>): (o: Outcome)
    requires UniqueIds(t)
    ensures |o.table| == |t|
    ensures o.result.Ok? <==> |patch| > 0 && HasId(t, id)
    ensures |patch| == 0 ==> o == Outcome(Err(BadInput(NO_DATA_MESSAGE)), t)
    ensures |patch| > 0 && !HasId(t, id) ==> o == Outcome(Err(NotFound(UpdateFailedMessage(id))), t)
    ensures o.result.Ok? ==> forall i :: 0 <= i < |t| ==>
              o.table[i] == if t[i].id == id then ApplyPatch(t[i], StripId(patch)) else t[i]
    ensures o.result.Ok? ==> o.result.value in o.table && o.result.value.id == id
  {
    var data := StripId(patch);
    if |patch| == 0 then Outcome(Err(BadInput(NO_DATA_MESSAGE)), t)
    else
      match Find(t, id)
      case None => Outcome(Err(NotFound(UpdateFailedMessage(id))), t)
      case Some(i) =>
        var p := ApplyPatch(t[i], data);
        Outcome(Ok(p), t[i := p])
  }

  /** Update never writes the primary key: every row keeps its id, and no
      row gains an `id` column, so the table invariant is kept. */
  lemma UpdateKeepsInvariant(t: seq<Product>, nextId: int, id: int, patch: map<string, Value>)
    requires TableInvariant(t, nextId)
    ensures var o := UpdateStep(t, id, patch);
            && (forall i :: 0 <= i < |t| ==> o.table[i].id == t[i].id)
            && TableInvariant(o.table, nextId)
  {
  }

  /** A payload carrying only `id` is not rejected, yet changes nothing:
      the row comes back as it was. */
  lemma UpdateOnlyIdIsNoOp(t: seq<Product>, id: int, v: Value, i: int)
    requires UniqueIds(t) && 0 <= i < |t| && t[i].id == id
    ensures UpdateStep(t, id, map[ID_KEY := v]) == Outcome(Ok(t[i]), t)
  {
    var patch := map[ID_KEY := v];
    assert |patch| == 1;
    assert StripId(patch) == map[];
    assert t[i].fields + map[] == t[i].fields;
    FindUnique(t, id, i);
    assert t[i := t[i]] == t;
  }

  /** There is no availability filter on update: a soft-deleted row can still
      be updated. */
  lemma UpdateIgnoresAvailability(t: seq<Product>, id: int, patch: map<string, Value>, i: int)
    requires UniqueIds(t) && 0 <= i < |t| && t[i].id == id && !Available(t[i]) && |patch| > 0
    ensures UpdateStep(t, id, patch).result == Ok(ApplyPatch(t[i], StripId(patch)))
  {
  }

  // ----------------------------------------------------------------- remove

  /** The soft delete of one row: `available` becomes false, nothing else. */
  function MarkUnavailable(p: Product): (q: Product)
    ensures q.id == p.id && !Available(q)
    ensures AVAILABLE_KEY in q.fields && q.fields[AVAILABLE_KEY] == Bool(false)
    ensures q.fields.Keys == p.fields.Keys + {AVAILABLE_KEY}
    ensures forall k :: k in p.fields && k != AVAILABLE_KEY ==> q.fields[k] == p.fields[k]
  {
    p.(fields := p.fields[AVAILABLE_KEY := Bool(false)])
  }

  /** `remove(id)`; `cause` is the message of the error the store raises
      when no row has that id. */
  function RemoveStep(t: seq<Product>, id: int, cause: string): (o: Outcome)
    requires UniqueIds(t)
    ensures |o.table| == |t|
    ensures o.result.Ok? <==> HasId(t, id)
    ensures !HasId(t, id) ==> o == Outcome(Err(NotFound(DeleteFailedMessage(id, cause))), t)
    ensures HasId(t, id) ==> forall i :: 0 <= i < |t| ==>
              o.table[i] == if t[i].id == id then MarkUnavailable(t[i]) else t[i]
    ensures o.result.Ok? ==> o.result.value in o.table && o.result.value.id == id &&
                             AVAILABLE_KEY in o.result.value.fields &&
                             o.result.value.fields[AVAILABLE_KEY] == Bool(false)
  {
    match Find(t, id)
    case None => Outcome(Err(NotFound(DeleteFailedMessage(id, cause))), t)
    case Some(i) =>
      var p := MarkUnavailable(t[i]);
      Outcome(Ok(p), t[i := p])
  }

  /** `remove` never deletes a row or changes an id. */
  lemma RemoveKeepsInvariant(t: seq<Product>, nextId: int, id: int, cause: string)
    requires TableInvariant(t, nextId)
    ensures var o := RemoveStep(t, id, cause);
            && (forall i :: 0 <= i < |t| ==> o.table[i].id == t[i].id)
            && TableInvariant(o.table, nextId)
  {
  }

  /** Removing twice answers as removing once and leaves the same table,
      whatever `available` was before. */
  lemma RemoveIdempotent(t: seq<Product>, id: int, cause: string)
    requires UniqueIds(t)
    ensures UniqueIds(RemoveStep(t, id, cause).table)
    ensures RemoveStep(RemoveStep(t, id, cause).table, id, cause) == RemoveStep(t, id, cause)
  {
    var o := RemoveStep(t, id, cause);
    assert UniqueIds(o.table) by {
      assert forall i :: 0 <= i < |t| ==> o.table[i].id == t[i].id;
    }
    if HasId(t, id) {
      var i := Find(t, id).value;
      FindUnique(t, id, i);
      assert o.table == t[i := MarkUnavailable(t[i])];
      FindUnique(o.table, id, i);
      var q := MarkUnavailable(o.table[i]);
      assert q.fields == o.table[i].fields;
      assert o.table[i := q] == o.table;
    }
  }

  /** A removed row is hidden from `findOne` and from every page of
      `findAll`, but `validateProducts` still finds it. */
  lemma RemoveHidesRow(t: seq<Product>, id: int, cause: string, page: int, limit: int)
    requires UniqueIds(t) && HasId(t, id) && page >= 1 && limit >= 1
    ensures UniqueIds(RemoveStep(t, id, cause).table)
    ensures FindOne(RemoveStep(t, id, cause).table, id) == Err(NotFound(NotFoundMessage(id)))
    ensures forall p :: p in FindAll(RemoveStep(t, id, cause).table, page, limit).data ==> p.id != id
    ensures ValidateProducts(RemoveStep(t, id, cause).table, [id]).Ok?
  {
  }

  // ----------------------------------------------------------------- create

  /** `create(createProductDto)`: the row the store inserts under the next id. */
  function CreateStep(t: seq<Product>, nextId: int, dto: map<string, Value>): (r: seq<Product>)
    ensures |r| == |t| + 1 && r[..|t|] == t
    ensures r[|t|].id == nextId && r[|t|].fields == dto
  {
    t + [Product(nextId, dto)]
  }

  /** Create keeps the table invariant: the next id is fresh. */
  lemma CreateKeepsInvariant(t: seq<Product>, nextId: int, dto: map<string, Value>)
    requires TableInvariant(t, nextId) && ID_KEY !in dto
    ensures TableInvariant(CreateStep(t, nextId, dto), nextId + 1)
  {
  }

  /** A newly created row is found by `validateProducts`, and by `findOne`
      exactly when it was created available. */
  lemma CreatedRowIsFound(t: seq<Product>, nextId: int, dto: map<string, Value>)
    requires TableInvariant(t, nextId) && ID_KEY !in dto
    ensures UniqueIds(CreateStep(t, nextId, dto))
    ensures ValidateProducts(CreateStep(t, nextId, dto), [nextId]).Ok?
    ensures FindOne(CreateStep(t, nextId, dto), nextId).Ok? <==> Available(Product(nextId, dto))
  {
  }

  // ---------------------------------------------------------------- service

  /** The service: the product table in the store's default order, and the
      id the store hands to the next row it inserts. */
  class ProductsService {
    var rows: seq<Product>
    var nextId: int

    ghost predicate Valid()
      reads this
    {
      TableInvariant(rows, nextId)
    }

    constructor ()
      ensures Valid() && rows == [] && nextId == 1
    {
      rows := [];
      nextId := 1;
    }

    /** The in-place form of `CreateStep`: the row is appended and `nextId` advances. */
    method Create(dto: map<string, Value>) returns (p: Product)
      requires Valid() && ID_KEY !in dto
      modifies this
      ensures Valid()
      ensures p == Product(old(nextId), dto)
      ensures rows == CreateStep(old(rows), old(nextId), dto) && nextId == old(nextId) + 1
    {
      CreateKeepsInvariant(rows, nextId, dto);
      p := Product(nextId, dto);
      rows := rows + [p];
      nextId := nextId + 1;
    }

    /** The in-place form of `UpdateStep`: the matching row of `rows` is overwritten. */
    method Update(id: int, patch: map<string, Value>) returns (r: Result<Product>)
      requires Valid()
      modifies this
      ensures Valid() && nextId == old(nextId)
      ensures Outcome(r, rows) == UpdateStep(old(rows), id, patch)
    {
      UpdateKeepsInvariant(rows, nextId, id, patch);
      var data := StripId(patch);
      if |patch| == 0 {
        return Err(BadInput(NO_DATA_MESSAGE));
      }
      var found := Find(rows, id);
      if found.None? {
        return Err(NotFound(UpdateFailedMessage(id)));
      }
      var i := found.value;
      var p := ApplyPatch(rows[i], data);
      rows := rows[i := p];
      r := Ok(p);
    }

    /** The in-place form of `RemoveStep`: the matching row of `rows` is overwritten. */
    method Remove(id: int, cause: string) returns (r: Result<Product>)
      requires Valid()
      modifies this
      ensures Valid() && nextId == old(nextId)
      ensures Outcome(r, rows) == RemoveStep(old(rows), id, cause)
    {
      RemoveKeepsInvariant(rows, nextId, id, cause);
      var found := Find(rows, id);
      if found.None? {
        return Err(NotFound(DeleteFailedMessage(id, cause)));
      }
      var i := found.value;
      var p := MarkUnavailable(rows[i]);
      rows := rows[i := p];
      r := Ok(p);
    }
  }
}
