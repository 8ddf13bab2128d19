/**
 * activate_window as the ordered list of requests it sends to the
 * windowing system (the three programs share the sequence; the X calls
 * themselves are not modelled).
 */
module Activation {
  import opened Common

  const SettleDelayUs: nat := 50000

  /** One request: a desktop switch, the settle sleep after it, the
      _NET_ACTIVE_WINDOW message, and the direct map-raise, raise and
      input-focus fallbacks. */
  datatype Op =
    | SwitchDesktop(desktop: nat)
    | Settle(micros: nat)
    | RequestActive(window: nat)
    | MapRaised(window: nat)
    | Raise(window: nat)
    | Focus(window: nat)

  predicate OnWindow(op: Op)
  {
    op.RequestActive? || op.MapRaised? || op.Raise? || op.Focus?
  }

  /**
   * The requests for window `id` whose desktop property is `desktop`
   * (winleap.c tests `desktop >= 0`, atsw.c and atsw_manual.c test that
   * the property exists; both mean `desktop.Some?` here).
   */
  function ActivationOps(id: nat, desktop: Option<nat>): (ops: seq<Op>)
    ensures |ops| > 0 && ops[|ops| - 1] == Focus(id)
    ensures forall k :: 0 <= k < |ops| && OnWindow(ops[k]) ==> ops[k].window == id
    ensures forall j, k :: 0 <= j < k < |ops| && OnWindow(ops[j]) ==> OnWindow(ops[k])
    ensures (exists k :: 0 <= k < |ops| && ops[k].SwitchDesktop?) <==> desktop.Some?
    ensures desktop.Some? ==> ops[0] == SwitchDesktop(desktop.value) && ops[1] == Settle(SettleDelayUs)
    ensures forall k :: 0 <= k < |ops| && ops[k].Settle? ==> k > 0 && ops[k - 1].SwitchDesktop?
    ensures exists k :: 0 <= k < |ops| && ops[k] == RequestActive(id)
  {
    var switch := if desktop.Some? then [SwitchDesktop(desktop.value), Settle(SettleDelayUs)] else [];
    var ops := switch + [RequestActive(id), MapRaised(id), Raise(id), Focus(id)];
    assert ops[|switch|] == RequestActive(id);
    assert desktop.Some? ==> ops[0].SwitchDesktop?;
    assert forall k :: |switch| <= k < |ops| ==> OnWindow(ops[k]);
    ops
  }
}
