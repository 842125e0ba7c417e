/**
 * The three capped, append-only logs of the admin page: the action log and the
 * payment log keep the last 50 entries, the login history the last 20.
 * Each append re-reads the stored array, pushes one entry and stores `slice(-cap)`.
 */
module AuditLogs {
  import opened Wrappers
  import opened Storage

  const ActionLogCap: nat := 50
  const PaymentLogCap: nat := 50
  const LoginHistoryCap: nat := 20

  /** `array.slice(-n)` for n > 0: the last n elements, or all of them when there are fewer. */
  function KeepLast<T>(s: seq<T>, n: nat): seq<T> {
    if |s| <= n then s else s[|s| - n..]
  }

  /** One append: push, then cut back to the cap. */
  function Appended<T>(log: seq<T>, e: T, cap: nat): seq<T> {
    KeepLast(log + [e], cap)
  }

  /** After an append the new entry is last, the length is min(old + 1, cap), and the rest is the newest part of the old log. */
  lemma AppendedShape<T>(log: seq<T>, e: T, cap: nat)
    requires cap > 0
    ensures var r := Appended(log, e, cap);
      && |r| == (if |log| + 1 <= cap then |log| + 1 else cap)
      && r[|r| - 1] == e
      && r[..|r| - 1] == KeepLast(log, cap - 1)
  {
    var r := Appended(log, e, cap);
    if |log| + 1 > cap {
      assert r[..|r| - 1] == log[|log| - (cap - 1)..];
    } else {
      assert r[..|r| - 1] == log;
    }
  }

  /** Appending to the capped log keeps exactly what capping the whole history would keep. */
  lemma {:induction false} AppendedKeepsNewest<T>(history: seq<T>, e: T, cap: nat)
    requires cap > 0
    ensures Appended(KeepLast(history, cap), e, cap) == KeepLast(history + [e], cap)
  {
    var h := history + [e];
    if |history| > cap {
      var k := KeepLast(history, cap);
      assert k + [e] == h[|h| - cap - 1..];
      assert (k + [e])[1..] == h[|h| - cap..];
    }
  }

  /** Any number of appends: the stored log is the last `cap` entries of everything ever appended, in order. */
  function AppendAll<T>(log: seq<T>, es: seq<T>, cap: nat): seq<T>
    decreases |es|
  {
    if es == [] then log else AppendAll(Appended(log, es[0], cap), es[1..], cap)
  }

  lemma {:induction false} AppendAllKeepsNewest<T>(log: seq<T>, es: seq<T>, cap: nat)
    requires cap > 0
    ensures AppendAll(KeepLast(log, cap), es, cap) == KeepLast(log + es, cap)
    ensures |AppendAll(KeepLast(log, cap), es, cap)| <= cap
    decreases |es|
  {
    if es == [] {
      assert log + es == log;
    } else {
      AppendedKeepsNewest(log, es[0], cap);
      AppendAllKeepsNewest(log + [es[0]], es[1..], cap);
      assert log + [es[0]] + es[1..] == log + es;
    }
  }

  /** `appendAdminLog`: nothing happens when the action or the admin name is empty. */
  method AppendAdminLog(st: Store, action: string, adminName: string, now: int)
    modifies st`adminLogs
    ensures if action == [] || adminName == [] then st.adminLogs == old(st.adminLogs)
            else st.adminLogs == Value(Appended(Items(old(st.adminLogs)), LogEntry(action, adminName, now), ActionLogCap))
  {
    if action == [] || adminName == [] {
      return;
    }
    var logs := Items(st.adminLogs);
    logs := logs + [LogEntry(action, adminName, now)];
    st.adminLogs := Value(KeepLast(logs, ActionLogCap));
  }

  /** `appendPaymentLog`: nothing happens when the action is empty; a missing admin name becomes 'Administrador'. */
  method AppendPaymentLog(st: Store, action: string, adminName: Option<string>, now: int)
    modifies st`paymentLogs
    ensures if action == [] then st.paymentLogs == old(st.paymentLogs)
            else st.paymentLogs == Value(Appended(Items(old(st.paymentLogs)),
                   LogEntry(action, if adminName.Some? then adminName.value else "Administrador", now), PaymentLogCap))
  {
    if action == [] {
      return;
    }
    var logs := Items(st.paymentLogs);
    var admin := if adminName.Some? then adminName.value else "Administrador";
    logs := logs + [LogEntry(action, admin, now)];
    st.paymentLogs := Value(KeepLast(logs, PaymentLogCap));
  }

  /** `persistAdminLogin`: always appends, keeping the last 20 logins. */
  method PersistAdminLogin(st: Store, name: string, now: int)
    modifies st`adminHistory
    ensures st.adminHistory == Value(Appended(Items(old(st.adminHistory)), LoginEntry(name, now), LoginHistoryCap))
  {
    var history := Items(st.adminHistory);
    history := history + [LoginEntry(name, now)];
    st.adminHistory := Value(KeepLast(history, LoginHistoryCap));
  }
}
