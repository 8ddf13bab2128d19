/**
 * The keyboard grab with bounded retry and backoff (grab_keyboard, the
 * same code in winleap.c and atsw.c). The replies of XGrabKeyboard are an
 * input: one reply for each call the loop may make.
 */
module Grab {

  /** The status codes XGrabKeyboard returns. */
  datatype GrabStatus = GrabSuccess | AlreadyGrabbed | GrabInvalidTime | GrabNotViewable | GrabFrozen

  const MaxGrabAttempts: nat := 10
  const InitialRetryDelayUs: nat := 10000

  /** The delay slept after failed attempt k (0-based): 10000 us, then
      multiplied by 3/2 with integer division each time. */
  function RetryDelay(k: nat): nat
  {
    if k == 0 then InitialRetryDelayUs else RetryDelay(k - 1) * 3 / 2
  }

  /** The grab is granted within the attempts the loop makes: some reply is
      a success and every reply before it is "already grabbed". */
  ghost predicate Granted(replies: seq<GrabStatus>)
  {
    exists k :: 0 <= k < MaxGrabAttempts && k < |replies| && replies[k] == GrabSuccess &&
      forall j :: 0 <= j < k ==> replies[j] == AlreadyGrabbed
  }

  /**
   * grab_keyboard: call XGrabKeyboard up to ten times; retry (after
   * sleeping) only on AlreadyGrabbed and never after the last attempt;
   * stop at once on any other reply. Returns whether the grab was
   * obtained, the number of calls made and the delays slept, in order.
   */
  method GrabKeyboard(replies: seq<GrabStatus>) returns (ok: bool, attempts: nat, sleeps: seq<nat>)
    requires |replies| >= MaxGrabAttempts
    ensures 1 <= attempts <= MaxGrabAttempts
    ensures forall k :: 0 <= k < attempts - 1 ==> replies[k] == AlreadyGrabbed
    ensures attempts < MaxGrabAttempts ==> replies[attempts - 1] != AlreadyGrabbed
    ensures ok <==> replies[attempts - 1] == GrabSuccess
    ensures ok <==> Granted(replies)
    ensures |sleeps| == attempts - 1
    ensures forall k :: 0 <= k < |sleeps| ==> sleeps[k] == RetryDelay(k)
  {
    var i := 0;
    var retryDelay := InitialRetryDelayUs;
    sleeps := [];
    while true
      invariant 0 <= i < MaxGrabAttempts
      invariant forall k :: 0 <= k < i ==> replies[k] == AlreadyGrabbed
      invariant |sleeps| == i
      invariant forall k :: 0 <= k < i ==> sleeps[k] == RetryDelay(k)
      invariant retryDelay == RetryDelay(i)
      decreases MaxGrabAttempts - i
    {
      var grabResult := replies[i];
      if grabResult == GrabSuccess {
        GrantedAt(replies, i);
        ok, attempts := true, i + 1;
        break;
      }
      if grabResult == AlreadyGrabbed && i < MaxGrabAttempts - 1 {
        sleeps := sleeps + [retryDelay];
        retryDelay := retryDelay * 3 / 2;
        i := i + 1;
        continue;
      }
      RefusedAt(replies, i);
      ok, attempts := false, i + 1;
      break;
    }
  }

  lemma GrantedAt(replies: seq<GrabStatus>, k: nat)
    requires k < MaxGrabAttempts && k < |replies| && replies[k] == GrabSuccess
    requires forall j :: 0 <= j < k ==> replies[j] == AlreadyGrabbed
    ensures Granted(replies)
  {
  }

  /** A reply that ends the loop without success rules the grab out. */
  lemma RefusedAt(replies: seq<GrabStatus>, k: nat)
    requires k < MaxGrabAttempts && k < |replies| && replies[k] != GrabSuccess
    requires replies[k] != AlreadyGrabbed || k == MaxGrabAttempts - 1
    requires forall j :: 0 <= j < k ==> replies[j] == AlreadyGrabbed
    ensures !Granted(replies)
  {
    forall w | 0 <= w < MaxGrabAttempts && w < |replies| && replies[w] == GrabSuccess
      ensures exists j :: 0 <= j < w && replies[j] != AlreadyGrabbed
    {
      assert k < w < MaxGrabAttempts;
      assert replies[k] != AlreadyGrabbed;
    }
  }
}
