/**
 * The admin page's inventory: one row per crate kind of the fixed catalogue,
 * read back from localStorage with defaults and written with clamped inputs.
 * Prices are whole pesos.
 */
module Inventory {
  import opened Wrappers
  import opened Storage
  import opened Decimal

  datatype Crate = Crate(id: string, labelText: string)

  /** `CRATE_OPTIONS`. */
  const CrateOptions: seq<Crate> := [
    Crate("X", "Caj\U{00F3}n X"),
    Crate("6", "Caj\U{00F3}n de 6 cabezas"),
    Crate("7", "Caj\U{00F3}n de 7 cabezas"),
    Crate("8", "Caj\U{00F3}n de 8 cabezas"),
    Crate("9", "Caj\U{00F3}n de 9 cabezas"),
    Crate("10", "Caj\U{00F3}n de 10 cabezas")
  ]

  datatype InventoryItem = InventoryItem(id: string, labelText: string, stock: int, price: int)

  /** One item per catalogue entry, in catalogue order, carrying its id and label. */
  ghost predicate FollowsCatalogue(items: seq<InventoryItem>) {
    |items| == |CrateOptions|
    && forall i :: 0 <= i < |items| ==> items[i].id == CrateOptions[i].id && items[i].labelText == CrateOptions[i].labelText
  }

  lemma CrateIdsDistinct()
    ensures forall i, j :: 0 <= i < j < |CrateOptions| ==> CrateOptions[i].id != CrateOptions[j].id
  {
    assert "X"[0] != "6"[0] && "X"[0] != "7"[0] && "X"[0] != "8"[0] && "X"[0] != "9"[0] && "X"[0] != "10"[0];
    assert "6"[0] != "7"[0] && "6"[0] != "8"[0] && "6"[0] != "9"[0] && "6"[0] != "10"[0];
    assert "7"[0] != "8"[0] && "7"[0] != "9"[0] && "7"[0] != "10"[0];
    assert "8"[0] != "9"[0] && "8"[0] != "10"[0];
    assert "9"[0] != "10"[0];
  }

  // ---------------------------------------------------------------- load

  /** The outcome of `parsed.find((item) => item.id === id)`. */
  datatype Lookup = Found(item: StoredItem) | NotFound | Threw

  /** Reading `.id` of a `null` element before a match throws a TypeError. */
  function FindStored(items: seq<StoredItem>, id: string): (r: Lookup)
    ensures r.Found? ==> r.item in items && r.item.ItemObject? && r.item.id == Some(id)
    ensures r.NotFound? <==> forall i :: 0 <= i < |items| ==> items[i].ItemObject? && items[i].id != Some(id)
    ensures r.Threw? ==> NullItem in items
  {
    if items == [] then NotFound
    else if items[0].NullItem? then Threw
    else if items[0].id == Some(id) then Found(items[0])
    else FindStored(items[1..], id)
  }

  /** The first element with the id is found when no `null` comes before it. */
  lemma {:induction false} FindStoredAt(items: seq<StoredItem>, id: string, k: nat)
    requires k < |items| && items[k].ItemObject? && items[k].id == Some(id)
    requires forall j :: 0 <= j < k ==> items[j].ItemObject? && items[j].id != Some(id)
    ensures FindStored(items, id) == Found(items[k])
  {
    if k > 0 {
      FindStoredAt(items[1..], id, k - 1);
    }
  }

  /** `{ id, labelText, stock: match?.stock ?? 0, price: match?.price ?? 0 }`. */
  function RowFor(c: Crate, match_: Option<StoredItem>): InventoryItem {
    var stock := if match_.Some? && match_.value.ItemObject? && match_.value.stock.Some? then match_.value.stock.value else 0;
    var price := if match_.Some? && match_.value.ItemObject? && match_.value.price.Some? then match_.value.price.value else 0;
    InventoryItem(c.id, c.labelText, stock, price)
  }

  /** The `CRATE_OPTIONS.map` over a parsed array; `None` when a lookup throws. */
  function LoadRows(parsed: seq<StoredItem>, crates: seq<Crate>): (r: Option<seq<InventoryItem>>)
    ensures r.Some? ==> (|r.value| == |crates|
      && forall i :: 0 <= i < |crates| ==> r.value[i].id == crates[i].id && r.value[i].labelText == crates[i].labelText)
    ensures r.None? <==> exists i :: 0 <= i < |crates| && FindStored(parsed, crates[i].id).Threw?
  {
    if crates == [] then Some([])
    else
      var rest := LoadRows(parsed, crates[1..]);
      match FindStored(parsed, crates[0].id)
      case Threw => None
      case NotFound => if rest.None? then None else Some([RowFor(crates[0], None)] + rest.value)
      case Found(item) => if rest.None? then None else Some([RowFor(crates[0], Some(item))] + rest.value)
  }

  /** Every stock and price 0. */
  function DefaultInventory(): (r: seq<InventoryItem>)
    ensures FollowsCatalogue(r)
    ensures forall i :: 0 <= i < |r| ==> r[i].stock == 0 && r[i].price == 0
  {
    seq(|CrateOptions|, i requires 0 <= i < |CrateOptions| => RowFor(CrateOptions[i], None))
  }

  /**
   * `loadInventory` (admin page): the stored array mapped onto the catalogue; the
   * all-zero default for a missing, malformed, non-array or empty value, or when a
   * lookup throws.
   */
  function LoadInventory(slot: Slot<seq<StoredItem>>): (r: seq<InventoryItem>)
    ensures FollowsCatalogue(r)
    ensures !slot.Value? || slot.v == [] ==> r == DefaultInventory()
    ensures slot.Value? && slot.v != [] && (exists i :: 0 <= i < |CrateOptions| && FindStored(slot.v, CrateOptions[i].id).Threw?)
      ==> r == DefaultInventory()
    ensures slot.Value? && slot.v != [] && LoadRows(slot.v, CrateOptions).Some? ==> r == LoadRows(slot.v, CrateOptions).value
  {
    if slot.Value? && slot.v != [] then
      match LoadRows(slot.v, CrateOptions)
      case Some(rows) => rows
      case None => DefaultInventory()
    else DefaultInventory()
  }

  /**
   * What the load takes from a stored array on which no crate's lookup throws: the
   * stock and price of the first element with the crate's id, unclamped, or 0 when
   * the id is absent or the field is missing. Elements with other ids are ignored.
   */
  lemma LoadInventoryRow(parsed: seq<StoredItem>, i: nat)
    requires parsed != [] && i < |CrateOptions|
    requires forall j :: 0 <= j < |CrateOptions| ==> !FindStored(parsed, CrateOptions[j].id).Threw?
    ensures var r := LoadInventory(Value(parsed))[i];
      match FindStored(parsed, CrateOptions[i].id)
      case Found(item) =>
        r.stock == (if item.stock.Some? then item.stock.value else 0)
        && r.price == (if item.price.Some? then item.price.value else 0)
      case NotFound => r.stock == 0 && r.price == 0
      case Threw => false
  {
    LoadRowsAt(parsed, CrateOptions, i);
  }

  lemma {:induction false} LoadRowsAt(parsed: seq<StoredItem>, crates: seq<Crate>, i: nat)
    requires i < |crates|
    requires forall j :: 0 <= j < |crates| ==> !FindStored(parsed, crates[j].id).Threw?
    ensures LoadRows(parsed, crates).Some?
    ensures LoadRows(parsed, crates).value[i] ==
      match FindStored(parsed, crates[i].id)
      case Found(item) => RowFor(crates[i], Some(item))
      case _ => RowFor(crates[i], None)
  {
    if i > 0 {
      LoadRowsAt(parsed, crates[1..], i - 1);
    } else if |crates| > 1 {
      LoadRowsAt(parsed, crates[1..], 0);
    }
  }

  // ---------------------------------------------------------------- save

  /** What `Number.parseInt`/`parseFloat` make of an input: no input element (read as '0'), not a finite number, or a number. */
  datatype NumberInput = NoInput | NotFinite | Number(n: int)

  /** `Number.isFinite(v) && v >= 0 ? v : 0`, with a missing input parsed as 0. */
  function Clamp(x: NumberInput): (r: nat)
    ensures x.Number? && x.n >= 0 ==> r == x.n
    ensures !(x.Number? && x.n >= 0) ==> r == 0
  {
    match x
    case Number(n) => if n >= 0 then n else 0
    case _ => 0
  }

  function InputFor(inputs: map<string, NumberInput>, id: string): NumberInput {
    if id in inputs then inputs[id] else NoInput
  }

  /** The `CRATE_OPTIONS.map` of the save button: every stock and price clamped to be non-negative. */
  function SavedInventory(stockInputs: map<string, NumberInput>, priceInputs: map<string, NumberInput>): (r: seq<InventoryItem>)
    ensures FollowsCatalogue(r)
    ensures forall i :: 0 <= i < |r| ==>
      && r[i].stock == Clamp(InputFor(stockInputs, CrateOptions[i].id))
      && r[i].price == Clamp(InputFor(priceInputs, CrateOptions[i].id))
  {
    seq(|CrateOptions|, i requires 0 <= i < |CrateOptions| =>
      InventoryItem(CrateOptions[i].id, CrateOptions[i].labelText,
                    Clamp(InputFor(stockInputs, CrateOptions[i].id)),
                    Clamp(InputFor(priceInputs, CrateOptions[i].id))))
  }

  /** The inputs `renderInventoryRows` fills: under each row's id, its stock (`stock`) or its price. */
  function FormInputs(items: seq<InventoryItem>, stock: bool): map<string, NumberInput>
    decreases |items|
  {
    if items == [] then map[]
    else
      var last := items[|items| - 1];
      FormInputs(items[..|items| - 1], stock)[last.id := Number(if stock then last.stock else last.price)]
  }

  lemma {:induction false} FormInputsAt(items: seq<InventoryItem>, stock: bool, k: nat)
    requires k < |items|
    requires forall j :: 0 <= j < |items| && j != k ==> items[j].id != items[k].id
    ensures InputFor(FormInputs(items, stock), items[k].id) == Number(if stock then items[k].stock else items[k].price)
    decreases |items|
  {
    if k < |items| - 1 {
      FormInputsAt(items[..|items| - 1], stock, k);
    }
  }

  /**
   * Saving the form as rendered from an inventory keeps every non-negative stock and
   * price and turns a negative one into 0; so an inventory this button saved is saved
   * again unchanged.
   */
  lemma ResaveKeepsInventory(items: seq<InventoryItem>)
    requires FollowsCatalogue(items)
    ensures var r := SavedInventory(FormInputs(items, true), FormInputs(items, false));
      forall i :: 0 <= i < |r| ==>
        r[i] == items[i].(stock := if items[i].stock >= 0 then items[i].stock else 0,
                          price := if items[i].price >= 0 then items[i].price else 0)
    ensures (forall i :: 0 <= i < |items| ==> items[i].stock >= 0 && items[i].price >= 0) ==>
      SavedInventory(FormInputs(items, true), FormInputs(items, false)) == items
  {
    CrateIdsDistinct();
    forall i | 0 <= i < |items|
      ensures InputFor(FormInputs(items, true), items[i].id) == Number(items[i].stock)
      ensures InputFor(FormInputs(items, false), items[i].id) == Number(items[i].price)
    {
      FormInputsAt(items, true, i);
      FormInputsAt(items, false, i);
    }
  }

  /** The JSON the save button stores. */
  function StoredInventory(items: seq<InventoryItem>): seq<StoredItem> {
    seq(|items|, i requires 0 <= i < |items| =>
      ItemObject(Some(items[i].id), Some(items[i].labelText), Some(items[i].stock), Some(items[i].price)))
  }

  /** Loading a saved inventory gives back exactly what was saved. */
  lemma LoadAfterSave(items: seq<InventoryItem>)
    requires FollowsCatalogue(items)
    ensures LoadInventory(Value(StoredInventory(items))) == items
  {
    var stored := StoredInventory(items);
    CrateIdsDistinct();
    assert stored[0].ItemObject?;
    forall i | 0 <= i < |items|
      ensures LoadInventory(Value(stored))[i] == items[i]
    {
      FindStoredAt(stored, CrateOptions[i].id, i);
      LoadRowsAt(stored, CrateOptions, i);
    }
  }

  // ---------------------------------------------------------------- change log

  /** `previousInventoryMap.get(id)`: a Map built from the list keeps the last item per id. */
  function PreviousById(items: seq<InventoryItem>, id: string): (r: Option<InventoryItem>)
    ensures r.Some? ==> r.value in items && r.value.id == id
    ensures r.None? <==> forall i :: 0 <= i < |items| ==> items[i].id != id
    decreases |items|
  {
    if items == [] then None
    else if items[|items| - 1].id == id then Some(items[|items| - 1])
    else PreviousById(items[..|items| - 1], id)
  }

  predicate StockChanged(previous: Option<InventoryItem>, item: InventoryItem) {
    previous.None? || previous.value.stock != item.stock
  }

  predicate PriceChanged(previous: Option<InventoryItem>, item: InventoryItem) {
    previous.None? || previous.value.price != item.price
  }

  /** `parts.join(sep)`. */
  function Join(parts: seq<string>, sep: string): string {
    if parts == [] then [] else if |parts| == 1 then parts[0] else parts[0] + sep + Join(parts[1..], sep)
  }

  /** `${labelText}: stock a → b, precio c → d`, listing only what changed. */
  function Describe(previous: Option<InventoryItem>, item: InventoryItem): string {
    var stockFragment :=
      if StockChanged(previous, item)
      then ["stock " + IntToString(if previous.Some? then previous.value.stock else 0) + " \U{2192} " + IntToString(item.stock)]
      else [];
    var priceFragment :=
      if PriceChanged(previous, item)
      then ["precio " + IntToString(if previous.Some? then previous.value.price else 0) + " \U{2192} " + IntToString(item.price)]
      else [];
    item.labelText + ": " + Join(stockFragment + priceFragment, ", ")
  }

  /** The description an item contributes: one when its stock or price changed, none otherwise. */
  function ChangeOf(previous: seq<InventoryItem>, item: InventoryItem): seq<string> {
    var before := PreviousById(previous, item.id);
    if StockChanged(before, item) || PriceChanged(before, item) then [Describe(before, item)] else []
  }

  /** One description per saved item whose stock or price differs from the previous state, in catalogue order. */
  function ChangeDescriptions(previous: seq<InventoryItem>, updated: seq<InventoryItem>): seq<string>
    decreases |updated|
  {
    if updated == [] then [] else ChangeDescriptions(previous, updated[..|updated| - 1]) + ChangeOf(previous, updated[|updated| - 1])
  }

  /** The `updatedInventory.forEach` that collects the change descriptions. */
  method DescribeChanges(previous: seq<InventoryItem>, updated: seq<InventoryItem>) returns (descriptions: seq<string>)
    ensures descriptions == ChangeDescriptions(previous, updated)
  {
    descriptions := [];
    var i := 0;
    while i < |updated|
      invariant 0 <= i <= |updated|
      invariant descriptions == ChangeDescriptions(previous, updated[..i])
    {
      var before := PreviousById(previous, updated[i].id);
      var item := updated[i];
      assert updated[..i + 1][..i] == updated[..i];
      if StockChanged(before, item) || PriceChanged(before, item) {
        descriptions := descriptions + [Describe(before, item)];
      }
      i := i + 1;
    }
    assert updated[..i] == updated;
  }

  /** Nothing is described exactly when every saved item matches the previous state's stock and price. */
  lemma {:induction false} NoChangesIff(previous: seq<InventoryItem>, updated: seq<InventoryItem>)
    ensures ChangeDescriptions(previous, updated) == [] <==>
      forall i :: 0 <= i < |updated| ==>
        PreviousById(previous, updated[i].id).Some?
        && PreviousById(previous, updated[i].id).value.stock == updated[i].stock
        && PreviousById(previous, updated[i].id).value.price == updated[i].price
    ensures |ChangeDescriptions(previous, updated)| <= |updated|
    decreases |updated|
  {
    if updated != [] {
      var init, last := updated[..|updated| - 1], updated[|updated| - 1];
      assert ChangeDescriptions(previous, updated) == ChangeDescriptions(previous, init) + ChangeOf(previous, last);
      NoChangesIff(previous, init);
      ChangeOfEmptyIff(previous, last);
      assert forall i :: 0 <= i < |init| ==> updated[i] == init[i];
    }
  }

  lemma ChangeOfEmptyIff(previous: seq<InventoryItem>, item: InventoryItem)
    ensures ChangeOf(previous, item) == [] <==>
      PreviousById(previous, item.id).Some?
      && PreviousById(previous, item.id).value.stock == item.stock
      && PreviousById(previous, item.id).value.price == item.price
    ensures |ChangeOf(previous, item)| <= 1
  {
  }

  /** Saving the inventory that was loaded, unchanged, describes no change. */
  lemma {:induction false} ResaveDescribesNothing(items: seq<InventoryItem>)
    requires FollowsCatalogue(items)
    ensures ChangeDescriptions(items, items) == []
  {
    CrateIdsDistinct();
    forall i | 0 <= i < |items|
      ensures PreviousById(items, items[i].id) == Some(items[i])
    {
      PreviousByIdAt(items, i);
    }
    NoChangesIff(items, items);
  }

  lemma {:induction false} PreviousByIdAt(items: seq<InventoryItem>, k: nat)
    requires k < |items|
    requires forall j :: k < j < |items| ==> items[j].id != items[k].id
    ensures PreviousById(items, items[k].id) == Some(items[k])
    decreases |items|
  {
    if k < |items| - 1 {
      PreviousByIdAt(items[..|items| - 1], k);
    }
  }
}
