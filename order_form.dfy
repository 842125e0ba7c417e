/**
 * The public order form: validating a submission, appending the order to
 * the stored order list, and looking up the requested crate in the stored
 * inventory to show its price and stock. The form reads the inventory and
 * never writes it.
 */
module OrderForm {
  import opened Wrappers
  import opened Storage
  import opened Text
  import opened Inventory

  /** `needle` occurs in `haystack` starting at index `i`. */
  predicate OccursAt(haystack: string, needle: string, i: int) {
    0 <= i && i + |needle| <= |haystack| && haystack[i..i + |needle|] == needle
  }

  /** `haystack.includes(needle)`. */
  function Includes(haystack: string, needle: string): (r: bool)
    ensures r <==> exists i :: OccursAt(haystack, needle, i)
    decreases |haystack|
  {
    if needle <= haystack then
      assert OccursAt(haystack, needle, 0);
      true
    else if haystack == [] then false
    else
      var rest := Includes(haystack[1..], needle);
      assert forall i :: OccursAt(haystack, needle, i) ==> i > 0 && OccursAt(haystack[1..], needle, i - 1);
      assert forall i :: OccursAt(haystack[1..], needle, i) ==> OccursAt(haystack, needle, i + 1);
      rest
  }

  /**
   * The submit handler's checks and the record it builds: the trimmed store name
   * and address must be non-empty and a crate size chosen.
   */
  function CheckOrder(storeNameField: string, storeAddressField: string, crateSize: Option<string>, now: int): (r: Option<Order>)
    ensures r.Some? <==> Trim(storeNameField) != [] && Trim(storeAddressField) != [] && crateSize.Some? && crateSize.value != []
    ensures r.Some? ==>
      && r.value.OrderObject?
      && r.value.storeName == Some(Trim(storeNameField)) && r.value.storeAddress == Some(Trim(storeAddressField))
      && r.value.crateSize == crateSize && r.value.timestamp == Some(now)
      && r.value.quantity.None? && r.value.totalPrice.None?
  {
    var storeName := Trim(storeNameField);
    var storeAddress := Trim(storeAddressField);
    if storeName == [] || storeAddress == [] || crateSize.None? || crateSize.value == [] then None
    else Some(OrderObject(Some(storeName), Some(storeAddress), crateSize, Some(now), None, None))
  }

  /** Submitting the fields of an accepted order again gives the same order: the stored fields are already trimmed. */
  lemma ResubmitGivesSameOrder(storeNameField: string, storeAddressField: string, crateSize: Option<string>, now: int)
    requires CheckOrder(storeNameField, storeAddressField, crateSize, now).Some?
    ensures var o := CheckOrder(storeNameField, storeAddressField, crateSize, now).value;
      CheckOrder(o.storeName.value, o.storeAddress.value, o.crateSize, now) == Some(o)
  {
    TrimIdempotent(storeNameField);
    TrimIdempotent(storeAddressField);
  }

  /**
   * `inventory.find((item) => item.label.includes(crateSize))`: reading `.label`
   * of a `null` element, or calling `includes` on a missing label, before a match throws.
   */
  function FindCrate(items: seq<StoredItem>, crateSize: string): (r: Lookup)
    ensures r.Found? ==> r.item in items && r.item.ItemObject? && r.item.itemLabel.Some? && Includes(r.item.itemLabel.value, crateSize)
    ensures r.NotFound? <==> forall i :: 0 <= i < |items| ==>
      items[i].ItemObject? && items[i].itemLabel.Some? && !Includes(items[i].itemLabel.value, crateSize)
    ensures r.Threw? ==> exists i :: 0 <= i < |items| && (items[i].NullItem? || items[i].itemLabel.None?)
  {
    if items == [] then NotFound
    else if items[0].NullItem? || items[0].itemLabel.None? then Threw
    else if Includes(items[0].itemLabel.value, crateSize) then Found(items[0])
    else
      var r := FindCrate(items[1..], crateSize);
      assert forall i :: 1 <= i < |items| ==> items[i] == items[1..][i - 1];
      r
  }

  /** The lookup returns the first item whose label contains the crate size, when every item before it is readable. */
  lemma {:induction false} FindCrateFirst(items: seq<StoredItem>, crateSize: string, k: nat)
    requires k < |items| && items[k].ItemObject? && items[k].itemLabel.Some? && Includes(items[k].itemLabel.value, crateSize)
    requires forall j :: 0 <= j < k ==>
      items[j].ItemObject? && items[j].itemLabel.Some? && !Includes(items[j].itemLabel.value, crateSize)
    ensures FindCrate(items, crateSize) == Found(items[k])
  {
    if k > 0 {
      FindCrateFirst(items[1..], crateSize, k - 1);
    }
  }

  /** The price and stock lines of the confirmation; the price is `Number(price || 0)`, the stock is shown as stored. */
  datatype CrateDetails = CrateDetails(price: int, stock: Option<int>)

  function ShownDetails(lookup: Lookup): (r: Option<CrateDetails>)
    ensures r.Some? <==> lookup.Found? && lookup.item.ItemObject?
    ensures r.Some? ==>
      && r.value.stock == lookup.item.stock
      && r.value.price == (if lookup.item.price.Some? then lookup.item.price.value else 0)
  {
    match lookup
    case Found(ItemObject(_, _, stock, price)) => Some(CrateDetails(if price.Some? then price.value else 0, stock))
    case _ => None
  }

  datatype Submission =
    | Rejected
    | Confirmed(order: Order, details: Option<CrateDetails>)
    | SavedThenThrew(order: Order)

  /** `persistOrder`: push onto the loaded list (a fresh [] when there is none) and store it. */
  method PersistOrder(st: Store, order: Order)
    modifies st`orders
    ensures st.orders == Value(Items(old(st.orders)) + [order])
    ensures |Items(st.orders)| == |Items(old(st.orders))| + 1
    ensures Items(st.orders)[..|Items(old(st.orders))|] == Items(old(st.orders))
    ensures Items(st.orders)[|Items(old(st.orders))|] == order
    ensures !old(st.orders).Value? ==> Items(st.orders) == [order]
  {
    var orders := Items(st.orders);
    orders := orders + [order];
    st.orders := Value(orders);
  }

  /**
   * The submit handler: validate, persist, then look the crate up in the stored
   * inventory. The order is saved before the lookup, so a lookup that throws
   * still leaves it stored.
   */
  method SubmitOrder(st: Store, storeNameField: string, storeAddressField: string, crateSize: Option<string>, now: int)
    returns (outcome: Submission)
    modifies st`orders
    ensures var checked := CheckOrder(storeNameField, storeAddressField, crateSize, now);
      && (checked.None? ==> outcome == Rejected && st.orders == old(st.orders))
      && (checked.Some? ==>
            && st.orders == Value(Items(old(st.orders)) + [checked.value])
            && var lookup := FindCrate(Items(st.inventory), crateSize.value);
               outcome == (if lookup.Threw? then SavedThenThrew(checked.value)
                           else Confirmed(checked.value, ShownDetails(lookup))))
    ensures st.inventory == old(st.inventory)
  {
    var checked := CheckOrder(storeNameField, storeAddressField, crateSize, now);
    if checked.None? {
      return Rejected;
    }
    var order := checked.value;
    PersistOrder(st, order);
    var inventory := Items(st.inventory);
    var crateData := FindCrate(inventory, crateSize.value);
    if crateData.Threw? {
      return SavedThenThrew(order);
    }
    outcome := Confirmed(order, ShownDetails(crateData));
  }
}
