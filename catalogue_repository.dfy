/**
 * `MobileCatalogueRepository`: the published catalogue list and the table of
 * `CatalogueItemEntity` rows behind it.
 *
 * The table is the managed-object context's view of the rows: an insert,
 * change or delete is visible to later fetches as soon as it is made, and a
 * failed `save()` reports an error without undoing it. Whether a fetch or a
 * save fails, and what the catalogue service answers, are parameters.
 */
module CatalogueRepository {
  import opened Wrappers
  import opened Numbers
  import opened CatalogueValues

  /** `MobileCatalogueServiceError` */
  datatype ServiceError = InvalidUrl | NetworkError(message: string) | ServerError

  /** What a repository operation throws. */
  datatype CatalogueError =
    | Service(cause: ServiceError)  // the catalogue service failed
    | UnableToUpdate                // `MobileCatalogueRepositoryError.unableToUpdate`
    | Persistence                   // a Core Data fetch or save threw

  /** A `CatalogueItemEntity` row: id, name and the encoded field blob. */
  datatype Record = Record(id: string, name: string, data: Option<Blob>)

  /** The row written for an item: its fields encoded, or no blob when it has none. */
  function RecordOf(item: CatalogueItem): Record {
    Record(item.id, item.name, if item.data.Some? then Some(EncodeFields(item.data.value)) else None)
  }

  /** The item read back from a row; a blob that does not decode leaves the item without data. */
  function ItemOf(r: Record): CatalogueItem {
    CatalogueItem(r.id, r.name, if r.data.Some? then DecodeFields(r.data.value) else None)
  }

  function RecordsOf(items: seq<CatalogueItem>): (rs: seq<Record>)
    ensures |rs| == |items| && forall i :: 0 <= i < |items| ==> rs[i] == RecordOf(items[i])
  {
    seq(|items|, i requires 0 <= i < |items| => RecordOf(items[i]))
  }

  function ItemsOf(rs: seq<Record>): (items: seq<CatalogueItem>)
    ensures |items| == |rs| && forall i :: 0 <= i < |rs| ==> items[i] == ItemOf(rs[i])
  {
    seq(|rs|, i requires 0 <= i < |rs| => ItemOf(rs[i]))
  }

  /** An item as it comes back from the store: whole doubles that fit `Int` have become ints. */
  function NormalizeItem(item: CatalogueItem): CatalogueItem {
    if item.data.None? then item
    else item.(data := Some(map k | k in item.data.value :: Normalize(item.data.value[k])))
  }

  /** Writing an item to a row and reading the row back gives the item, normalised. */
  lemma {:induction false} ItemOfRecordOf(item: CatalogueItem)
    ensures ItemOf(RecordOf(item)) == NormalizeItem(item)
  {
    if item.data.Some? {
      DecodeEncodeFields(item.data.value);
    }
  }

  /** Rows written by a refresh read back, in the same order, as the refreshed items normalised. */
  lemma ItemsOfRecordsOf(items: seq<CatalogueItem>)
    ensures |ItemsOf(RecordsOf(items))| == |items|
    ensures forall i :: 0 <= i < |items| ==> ItemsOf(RecordsOf(items))[i] == NormalizeItem(items[i])
  {
    forall i | 0 <= i < |items| ensures ItemsOf(RecordsOf(items))[i] == NormalizeItem(items[i]) {
      ItemOfRecordOf(items[i]);
    }
  }

  function RecordIds(rs: seq<Record>): (ids: seq<string>)
    ensures |ids| == |rs| && forall i :: 0 <= i < |rs| ==> ids[i] == rs[i].id
  {
    seq(|rs|, i requires 0 <= i < |rs| => rs[i].id)
  }

  function ItemIds(items: seq<CatalogueItem>): (ids: seq<string>)
    ensures |ids| == |items| && forall i :: 0 <= i < |items| ==> ids[i] == items[i].id
  {
    seq(|items|, i requires 0 <= i < |items| => items[i].id)
  }

  /** The position of the first occurrence of `id`: `firstIndex(where:)` and a fetch's `.first`. */
  function FirstIndex(ids: seq<string>, id: string): (r: Option<nat>)
    ensures r.None? <==> id !in ids
    ensures r.Some? ==> r.value < |ids| && ids[r.value] == id
    ensures r.Some? ==> forall j :: 0 <= j < r.value ==> ids[j] != id
  {
    if ids == [] then None
    else if ids[0] == id then Some(0)
    else
      match FirstIndex(ids[1..], id)
      case None => None
      case Some(i) => Some(i + 1)
  }

  /**
   * The list after `catalogueItems[index] = item` at the first element with
   * the item's id; unchanged when no element has it.
   */
  function ReplaceFirst(items: seq<CatalogueItem>, item: CatalogueItem): (r: seq<CatalogueItem>)
    ensures |r| == |items|
    ensures item.id !in ItemIds(items) ==> r == items
    ensures item.id in ItemIds(items) ==>
      var i := FirstIndex(ItemIds(items), item.id).value;
      r[i] == item && forall j :: 0 <= j < |items| && j != i ==> r[j] == items[j]
  {
    match FirstIndex(ItemIds(items), item.id)
    case None => items
    case Some(i) => items[i := item]
  }

  /** After a replace, the first element with the item's id is the item, at the same position. */
  lemma ReplaceFirstFindsItem(items: seq<CatalogueItem>, item: CatalogueItem)
    requires item.id in ItemIds(items)
    ensures FirstIndex(ItemIds(ReplaceFirst(items, item)), item.id)
            == FirstIndex(ItemIds(items), item.id)
    ensures ReplaceFirst(items, item)[FirstIndex(ItemIds(items), item.id).value] == item
  {
    var i := FirstIndex(ItemIds(items), item.id).value;
    var r := ReplaceFirst(items, item);
    var found := FirstIndex(ItemIds(r), item.id);
    assert ItemIds(r)[i] == item.id;
    assert found.Some?;
  }

  /** `removeAll { $0.id == id }` */
  function RemoveWithId(items: seq<CatalogueItem>, id: string): (r: seq<CatalogueItem>)
    ensures |r| <= |items|
    ensures id !in ItemIds(r)
    ensures forall x :: x in r <==> x in items && x.id != id
    ensures id !in ItemIds(items) ==> r == items
  {
    if items == [] then []
    else
      var rest := RemoveWithId(items[1..], id);
      assert ItemIds(items[1..]) == ItemIds(items)[1..];
      if items[0].id == id then rest else [items[0]] + rest
  }

  /**
   * `removeAll` is a filter: a single element goes exactly when it has the
   * id, and a list filters part by part. So the survivors keep their order
   * and their number of occurrences.
   */
  lemma RemoveWithIdSingle(x: CatalogueItem, id: string)
    ensures RemoveWithId([x], id) == if x.id == id then [] else [x]
  {
    assert [x][1..] == [];
  }

  lemma {:induction false} RemoveWithIdAppend(a: seq<CatalogueItem>, b: seq<CatalogueItem>, id: string)
    ensures RemoveWithId(a + b, id) == RemoveWithId(a, id) + RemoveWithId(b, id)
  {
    if a == [] {
      assert a + b == b;
    } else {
      var ab := a + b;
      assert ab[0] == a[0] && ab[1..] == a[1..] + b;
      RemoveWithIdAppend(a[1..], b, id);
      var rest := RemoveWithId(a[1..], id);
      if a[0].id == id {
        assert RemoveWithId(ab, id) == RemoveWithId(a[1..] + b, id);
        assert RemoveWithId(a, id) == rest;
      } else {
        assert RemoveWithId(ab, id) == [a[0]] + RemoveWithId(a[1..] + b, id);
        assert RemoveWithId(a, id) == [a[0]] + rest;
      }
    }
  }

  /** Removing an id a second time removes nothing more. */
  lemma {:induction false} RemoveWithIdIdempotent(items: seq<CatalogueItem>, id: string)
    ensures RemoveWithId(RemoveWithId(items, id), id) == RemoveWithId(items, id)
  {
    var once := RemoveWithId(items, id);
    assert id !in ItemIds(once);
  }

  /** The number of elements with a given id. */
  function CountId(items: seq<CatalogueItem>, id: string): nat {
    if items == [] then 0 else (if items[0].id == id then 1 else 0) + CountId(items[1..], id)
  }

  /** Removing an id shortens the list by the number of its occurrences: by one for a unique id. */
  lemma {:induction false} RemoveWithIdLength(items: seq<CatalogueItem>, id: string)
    ensures |RemoveWithId(items, id)| == |items| - CountId(items, id)
  {
    if items != [] {
      RemoveWithIdLength(items[1..], id);
    }
  }

  /**
   * A field edited to the whole double 10^19 is stored as that JSON number.
   * The corrected decoder reads the row back as the same item. The decoder as
   * written stops the program on it, so a later fetch from the rows traps.
   */
  lemma StoredBigDoubleReadBack()
    ensures var big := Decimal(false, 10_000_000_000_000_000_000, []);
      var item := CatalogueItem("1", "Phone", Some(map["price" := DoubleVal(big)]));
      && RecordOf(item).data == Some(JsonDocument(JObject(map["price" := JNumber(big)])))
      && DecodeAsWritten(JNumber(big)) == Failure(IntConversionTrap)
      && ItemOf(RecordOf(item)) == item
  {
    var big := Decimal(false, 10_000_000_000_000_000_000, []);
    var fields := map["price" := DoubleVal(big)];
    DecodeAsWrittenTrapsAboveIntMax();
    DecodeEncodeFields(fields);
    assert (map k | k in fields :: Normalize(fields[k])) == fields;
    assert (map k | k in fields :: Encode(fields[k])) == map["price" := JNumber(big)];
  }

  class MobileCatalogueRepository {
    /** `catalogueItems`, the list the repository publishes. */
    var catalogueItems: seq<CatalogueItem>
    /** The `CatalogueItemEntity` rows, in fetch order. */
    var records: seq<Record>
    /** How many times the catalogue service has been asked for the catalogue. */
    ghost var serviceCalls: nat

    /** A repository over a store that already holds `stored`. */
    constructor (stored: seq<Record>)
      ensures catalogueItems == [] && records == stored && serviceCalls == 0
    {
      catalogueItems := [];
      records := stored;
      serviceCalls := 0;
    }

    /**
     * `fetchCatalogue(forceUpdate:)`. Without a forced update and with rows in
     * the store, the list is read from the rows and the service is not asked;
     * otherwise the service is asked once, and on success every returned item
     * is added as a new row and becomes the list.
     */
    method FetchCatalogue(forceUpdate: bool, fetchOk: bool,
                          response: Result<seq<CatalogueItem>, ServiceError>)
      returns (result: Result<(), CatalogueError>)
      modifies this
      ensures !forceUpdate && fetchOk && old(records) != [] ==>
        && result.Success?
        && serviceCalls == old(serviceCalls)
        && records == old(records)
        && catalogueItems == ItemsOf(old(records))
      ensures forceUpdate || !fetchOk || old(records) == [] ==>
        && serviceCalls == old(serviceCalls) + 1
        && (response.Failure? ==>
              result == Failure(Service(response.error))
              && records == old(records) && catalogueItems == old(catalogueItems))
        && (response.Success? ==>
              result.Success?
              && records == old(records) + RecordsOf(response.value)
              && catalogueItems == response.value)
    {
      if !forceUpdate && fetchOk && records != [] {
        catalogueItems := ItemsOf(records);
        return Success(());
      }
      serviceCalls := serviceCalls + 1;
      if response.Failure? {
        return Failure(Service(response.error));
      }
      var items := response.value;
      var i := 0;
      while i < |items|
        invariant 0 <= i <= |items|
        invariant records == old(records) + RecordsOf(items[..i])
        invariant serviceCalls == old(serviceCalls) + 1
        invariant catalogueItems == old(catalogueItems)
      {
        assert RecordsOf(items[..i + 1]) == RecordsOf(items[..i]) + [RecordOf(items[i])];
        records := records + [RecordOf(items[i])];
        i := i + 1;
      }
      assert items[..i] == items;
      // a failed save() is only logged: the rows stay in the context
      catalogueItems := items;
      return Success(());
    }

    /**
     * `updateCatalogueItem`: the first row with the item's id takes its name
     * and encoded fields; after a successful save the first list element with
     * that id is replaced in place. No such row: `unableToUpdate`, nothing changes.
     */
    method UpdateCatalogueItem(item: CatalogueItem, fetchOk: bool, saveOk: bool)
      returns (result: Result<(), CatalogueError>)
      modifies this
      ensures serviceCalls == old(serviceCalls)
      ensures !fetchOk ==>
        result == Failure(Persistence)
        && records == old(records) && catalogueItems == old(catalogueItems)
      ensures fetchOk && item.id !in RecordIds(old(records)) ==>
        result == Failure(UnableToUpdate)
        && records == old(records) && catalogueItems == old(catalogueItems)
      ensures fetchOk && item.id in RecordIds(old(records)) ==>
        var i := FirstIndex(RecordIds(old(records)), item.id).value;
        && records == old(records)[i := RecordOf(item)]
        && (saveOk ==> result.Success? && catalogueItems == ReplaceFirst(old(catalogueItems), item))
        && (!saveOk ==> result == Failure(Persistence) && catalogueItems == old(catalogueItems))
    {
      if !fetchOk {
        return Failure(Persistence);
      }
      var found := FirstIndex(RecordIds(records), item.id);
      if found.None? {
        return Failure(UnableToUpdate);
      }
      records := records[found.value := RecordOf(item)];
      if !saveOk {
        return Failure(Persistence);
      }
      var index := FirstIndex(ItemIds(catalogueItems), item.id);
      if index.Some? {
        catalogueItems := catalogueItems[index.value := item];
      }
      return Success(());
    }

    /**
     * `deleteCatalogueItem`: the first row with the item's id is deleted and,
     * after a successful save, every list element with that id is removed.
     * No such row: nothing happens and nothing is thrown.
     */
    method DeleteCatalogueItem(item: CatalogueItem, fetchOk: bool, saveOk: bool)
      returns (result: Result<(), CatalogueError>)
      modifies this
      ensures serviceCalls == old(serviceCalls)
      ensures !fetchOk ==>
        result == Failure(Persistence)
        && records == old(records) && catalogueItems == old(catalogueItems)
      ensures fetchOk && item.id !in RecordIds(old(records)) ==>
        result.Success? && records == old(records) && catalogueItems == old(catalogueItems)
      ensures fetchOk && item.id in RecordIds(old(records)) ==>
        var i := FirstIndex(RecordIds(old(records)), item.id).value;
        && records == old(records)[..i] + old(records)[i + 1..]
        && (saveOk ==> result.Success? && catalogueItems == RemoveWithId(old(catalogueItems), item.id))
        && (!saveOk ==> result == Failure(Persistence) && catalogueItems == old(catalogueItems))
    {
      if !fetchOk {
        return Failure(Persistence);
      }
      var found := FirstIndex(RecordIds(records), item.id);
      if found.None? {
        return Success(());
      }
      records := records[..found.value] + records[found.value + 1..];
      if !saveOk {
        return Failure(Persistence);
      }
      catalogueItems := RemoveWithId(catalogueItems, item.id);
      return Success(());
    }

    /**
     * `deleteCatalogue`: every row is deleted and, after a successful save,
     * the list is emptied. Failures are only logged: nothing is thrown.
     */
    method DeleteCatalogue(fetchOk: bool, saveOk: bool)
      modifies this
      ensures serviceCalls == old(serviceCalls)
      ensures !fetchOk ==> records == old(records) && catalogueItems == old(catalogueItems)
      ensures fetchOk ==> records == []
      ensures fetchOk && saveOk ==> catalogueItems == []
      ensures !saveOk ==> catalogueItems == old(catalogueItems)
    {
      if !fetchOk {
        return;
      }
      var entities := records;
      var i := 0;
      while i < |entities|
        invariant 0 <= i <= |entities|
        invariant records == entities[i..]
        invariant serviceCalls == old(serviceCalls)
        invariant catalogueItems == old(catalogueItems)
      {
        records := records[1..];
        i := i + 1;
      }
      if saveOk {
        catalogueItems := [];
      }
    }
  }

  /**
   * A first fetch on an empty store goes to the service; a second fetch,
   * not forced, is answered from the rows the first one wrote, with no
   * further call to the service, and publishes the same items normalised.
   */
  method CacheThenReuse(items: seq<CatalogueItem>, unused: Result<seq<CatalogueItem>, ServiceError>)
    requires items != []
  {
    var repository := new MobileCatalogueRepository([]);
    var first := repository.FetchCatalogue(false, true, Success(items));
    assert repository.serviceCalls == 1 && repository.catalogueItems == items;
    assert repository.records == RecordsOf(items);
    var second := repository.FetchCatalogue(false, true, unused);
    assert repository.serviceCalls == 1;
    ItemsOfRecordsOf(items);
    assert |repository.catalogueItems| == |items|;
    assert forall i :: 0 <= i < |items| ==> repository.catalogueItems[i] == NormalizeItem(items[i]);
  }
}
