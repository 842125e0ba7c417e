/**
 * The browser's localStorage as the pages see it once each value has been
 * run through `JSON.parse`. Every key holds a `Slot`: nothing stored, text
 * that does not parse, JSON of the wrong shape (not an array, or for the
 * payment map not a plain object), or a decoded value. Records inside a
 * decoded value keep the looseness of JSON: a field may be missing or of the
 * wrong type (`None`), and an array element may be `null`. Any other non-object
 * element (a number, a string, an array) reads like an object with every field
 * missing, since reading a property of it gives `undefined`.
 */
module Storage {
  import opened Wrappers

  datatype Slot<T> = Absent | Unparsable | WrongShape | Value(v: T)

  /** What every list loader returns: the decoded array, or [] for a missing, malformed or non-array value. */
  function Items<T>(slot: Slot<seq<T>>): (r: seq<T>)
    ensures slot.Value? ==> r == slot.v
    ensures !slot.Value? ==> r == []
  {
    if slot.Value? then slot.v else []
  }

  /** Admin capabilities; a permission object is modelled by the set of keys it maps to a truthy value. */
  datatype Permission = ManagePayments | ClearOrders | ManageAdmins | ManageAdminPasswords

  /** An element of the stored custom-admin array (`frigorifico_custom_admins`). */
  datatype RawAdmin =
    | NonObjectAdmin
    | AdminObject(username: Option<string>, password: Option<string>,
                  displayName: Option<string>, permissions: Option<set<Permission>>)

  /** An element of the stored password-override array (`frigorifico_admin_overrides`). */
  datatype RawOverride =
    | NonObjectOverride
    | OverrideObject(username: Option<string>, password: Option<string>)

  /** An element of the stored inventory array; stock and price are whatever was stored (not clamped). */
  datatype StoredItem =
    | NullItem
    | ItemObject(id: Option<string>, itemLabel: Option<string>, stock: Option<int>, price: Option<int>)

  /**
   * An element of the stored order array: `null`, or an object. The order form
   * writes the first four fields only; `quantity` and `totalPrice` are read when
   * present. `timestamp` is `None` when `Number(order.timestamp)` is not finite.
   */
  datatype Order =
    | NullOrder
    | OrderObject(storeName: Option<string>, storeAddress: Option<string>,
                  crateSize: Option<string>, timestamp: Option<int>,
                  quantity: Option<int>, totalPrice: Option<int>)

  /** A value of the payment map; `status` is `None` when the record has no status. */
  datatype PaymentRecord = PaymentRecord(status: Option<string>, updatedAt: int, admin: string)

  /** An entry of the admin action log or of the payment log. */
  datatype LogEntry = LogEntry(action: string, admin: string, timestamp: int)

  /** An entry of the admin login history. */
  datatype LoginEntry = LoginEntry(name: string, timestamp: int)

  /** An element of the stored delivery-account array; `createdAt` is the creation time in ms. */
  datatype RawAccount =
    | NonObjectAccount
    | AccountObject(username: Option<string>, password: Option<string>, displayName: Option<string>,
                    role: Option<string>, createdAt: Option<int>)

  /** localStorage: one field per key the pages use. */
  class Store {
    var inventory: Slot<seq<StoredItem>>
    var orders: Slot<seq<Order>>
    var adminHistory: Slot<seq<LoginEntry>>
    var adminLogs: Slot<seq<LogEntry>>
    var payments: Slot<map<string, PaymentRecord>>
    var paymentLogs: Slot<seq<LogEntry>>
    var customAdmins: Slot<seq<RawAdmin>>
    var adminOverrides: Slot<seq<RawOverride>>
    var deliveryAccounts: Slot<seq<RawAccount>>

    /** A fresh browser profile: no key is set. */
    constructor ()
      ensures inventory == Absent && orders == Absent && adminHistory == Absent
      ensures adminLogs == Absent && payments == Absent && paymentLogs == Absent
      ensures customAdmins == Absent && adminOverrides == Absent && deliveryAccounts == Absent
    {
      inventory, orders, adminHistory := Absent, Absent, Absent;
      adminLogs, payments, paymentLogs := Absent, Absent, Absent;
      customAdmins, adminOverrides, deliveryAccounts := Absent, Absent, Absent;
    }
  }
}
