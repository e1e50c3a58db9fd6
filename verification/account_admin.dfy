/**
  The behaviour of the account admin panel: the GPG key status columns, the
  batch key refresh action, and the confirmation resend action. The keyserver
  refresh of one key and the background task queue are outside collaborators:
  the first is a function from key to outcome, the second a recorded call.
 */
module AccountAdmin {
  import opened Wrappers

  /** A point in time, in whatever unit the clock counts. */
  type Timestamp = int

  /** A stored GPG key: the fields the admin reads. */
  datatype GpgKey = GpgKey(fingerprint: string, revoked: bool, expires: Option<Timestamp>)

  /** The "valid" column: the inverse of `revoked`. */
  predicate Valid(key: GpgKey)
  {
    !key.revoked
  }

  /** The "usable" column at time `now`: a key with an expiry is usable only before it. */
  predicate Usable(key: GpgKey, now: Timestamp)
  {
    if key.expires.Some? then key.expires.value > now && !key.revoked
    else !key.revoked
  }

  /** A key is usable exactly when it is valid and has not expired. */
  lemma UsableIffValidAndUnexpired(key: GpgKey, now: Timestamp)
    ensures Usable(key, now) <==> Valid(key) && (key.expires.None? || now < key.expires.value)
    ensures key.expires.None? ==> (Usable(key, now) <==> !key.revoked)
  {
  }

  /** Every usable key is valid, and a key whose expiry is not after `now` is not usable. */
  lemma UsableImpliesValid(key: GpgKey, now: Timestamp)
    ensures Usable(key, now) ==> Valid(key)
    ensures key.expires.Some? && key.expires.value <= now ==> !Usable(key, now)
  {
  }

  /** Usability only ever ends: a key usable at some time was usable at every earlier time. */
  lemma UsableEarlier(key: GpgKey, earlier: Timestamp, later: Timestamp)
    requires earlier <= later && Usable(key, later)
    ensures Usable(key, earlier)
  {
  }

  /**
    What `obj.refresh()` did: returned, raised an `Exception` with this text, which the
    action catches, or raised a `BaseException` that is not an `Exception` (`SystemExit`,
    `KeyboardInterrupt`), which the action does not catch.
   */
  datatype RefreshOutcome = Refreshed | Failed(error: string) | Aborted

  /** An error message shown to the operator (`messages.error`). */
  datatype Message = ErrorMessage(text: string)

  /** The error message for a key whose refresh raised `error`. */
  function ImportError(key: GpgKey, error: string): Message
  {
    ErrorMessage("Error importing " + key.fingerprint + ": " + error)
  }

  /** Reference definition: one error message per key whose refresh raised an `Exception`,
      in selection order. */
  function RefreshErrors(keys: seq<GpgKey>, refresh: GpgKey -> RefreshOutcome): seq<Message>
  {
    if |keys| == 0 then []
    else
      (match refresh(keys[0])
       case Failed(e) => [ImportError(keys[0], e)]
       case _ => [])
      + RefreshErrors(keys[1..], refresh)
  }

  /** How many keys of the selection fail to refresh with an `Exception`. */
  function FailureCount(keys: seq<GpgKey>, refresh: GpgKey -> RefreshOutcome): nat
  {
    if |keys| == 0 then 0
    else (if refresh(keys[0]).Failed? then 1 else 0) + FailureCount(keys[1..], refresh)
  }

  /** Failures are isolated: the messages of a batch are those of its parts, in order. */
  lemma {:induction false} RefreshErrorsSplit(a: seq<GpgKey>, b: seq<GpgKey>, refresh: GpgKey -> RefreshOutcome)
    ensures RefreshErrors(a + b, refresh) == RefreshErrors(a, refresh) + RefreshErrors(b, refresh)
  {
    if |a| > 0 {
      assert (a + b)[1..] == a[1..] + b;
      RefreshErrorsSplit(a[1..], b, refresh);
    } else {
      assert a + b == b;
    }
  }

  /** Exactly one message per failing key: the message for the failure at position `i`
      is the one after the messages of the failures before it. */
  lemma {:induction false} RefreshErrorsPerFailure(keys: seq<GpgKey>, refresh: GpgKey -> RefreshOutcome)
    ensures |RefreshErrors(keys, refresh)| == FailureCount(keys, refresh)
    ensures forall i :: 0 <= i < |keys| && refresh(keys[i]).Failed? ==>
              FailureCount(keys[..i], refresh) < |RefreshErrors(keys, refresh)|
              && RefreshErrors(keys, refresh)[FailureCount(keys[..i], refresh)]
                 == ImportError(keys[i], refresh(keys[i]).error)
  {
    if |keys| > 0 {
      var rest := keys[1..];
      RefreshErrorsPerFailure(rest, refresh);
      var errs := RefreshErrors(keys, refresh);
      var head := if refresh(keys[0]).Failed? then 1 else 0;
      assert |errs| == head + |RefreshErrors(rest, refresh)|;
      forall i | 0 <= i < |keys| && refresh(keys[i]).Failed?
        ensures FailureCount(keys[..i], refresh) < |errs|
        ensures errs[FailureCount(keys[..i], refresh)] == ImportError(keys[i], refresh(keys[i]).error)
      {
        if i == 0 {
          assert keys[..0] == [];
        } else {
          assert keys[..i][1..] == rest[..i - 1];
          assert FailureCount(keys[..i], refresh) == head + FailureCount(rest[..i - 1], refresh);
          assert keys[i] == rest[i - 1];
        }
      }
    }
  }

  /** A selection in which no refresh fails produces no message. */
  lemma {:induction false} AllRefreshedNoMessages(keys: seq<GpgKey>, refresh: GpgKey -> RefreshOutcome)
    requires forall i :: 0 <= i < |keys| ==> refresh(keys[i]) == Refreshed
    ensures RefreshErrors(keys, refresh) == []
  {
    if |keys| > 0 {
      AllRefreshedNoMessages(keys[1..], refresh);
    }
  }

  /**
    The "refresh" action. The keys of the selection are refreshed in order; a key whose
    refresh raises an `Exception` adds its error message and the loop goes on. A key whose
    refresh raises any other `BaseException` ends the action there: `aborted` is set, the
    exception propagates, and no later key is refreshed. `attempted` records the keys whose
    `refresh()` was called: a prefix of the selection that ends at the first aborting key,
    or the whole selection when no key aborts.
   */
  method Refresh(queryset: seq<GpgKey>, refresh: GpgKey -> RefreshOutcome)
    returns (attempted: seq<GpgKey>, messages: seq<Message>, aborted: bool)
    ensures attempted <= queryset
    ensures !aborted ==> attempted == queryset
    ensures aborted <==> 0 < |attempted| && refresh(attempted[|attempted| - 1]).Aborted?
    ensures forall j :: 0 <= j < |attempted| - 1 ==> !refresh(attempted[j]).Aborted?
    ensures messages == RefreshErrors(attempted, refresh)
    ensures |messages| == FailureCount(attempted, refresh)
  {
    attempted := [];
    messages := [];
    aborted := false;
    var i := 0;
    while i < |queryset| && !aborted
      invariant 0 <= i <= |queryset|
      invariant attempted == queryset[..i]
      invariant aborted <==> 0 < i && refresh(queryset[i - 1]).Aborted?
      invariant forall j :: 0 <= j < i - 1 ==> !refresh(queryset[j]).Aborted?
      invariant messages == RefreshErrors(queryset[..i], refresh)
    {
      var key := queryset[i];
      attempted := attempted + [key];
      assert queryset[..i + 1] == queryset[..i] + [key];
      RefreshErrorsSplit(queryset[..i], [key], refresh);
      var outcome := refresh(key);
      if outcome.Aborted? {
        aborted := true;
      } else if outcome.Failed? {
        messages := messages + [ImportError(key, outcome.error)];
      }
      i := i + 1;
    }
    if !aborted {
      assert queryset[..i] == queryset;
    }
    RefreshErrorsPerFailure(attempted, refresh);
  }

  /** A pending confirmation: the fields the resend action reads. */
  datatype Confirmation = Confirmation(pk: int)

  /** A call handed to the background task queue. */
  datatype TaskCall = TaskCall(task: string, args: seq<int>)

  const ResendTask: string := "resend_confirmations"

  /** The primary keys of a selection, in selection order. */
  function PrimaryKeys(queryset: seq<Confirmation>): seq<int>
  {
    seq(|queryset|, i requires 0 <= i < |queryset| => queryset[i].pk)
  }

  /** The "resend" action: one call of the resend task with every selected primary key. */
  function Resend(queryset: seq<Confirmation>): (calls: seq<TaskCall>)
    ensures |calls| == 1 && calls[0].task == ResendTask
    ensures |calls[0].args| == |queryset|
    ensures forall i :: 0 <= i < |queryset| ==> calls[0].args[i] == queryset[i].pk
  {
    [TaskCall(ResendTask, PrimaryKeys(queryset))]
  }

  /** Resending two selections at once passes the same keys, in the same order, as
      resending one after the other; an empty selection still makes its one call. */
  lemma ResendBatches(a: seq<Confirmation>, b: seq<Confirmation>)
    ensures Resend(a + b)[0].args == Resend(a)[0].args + Resend(b)[0].args
    ensures Resend([]) == [TaskCall(ResendTask, [])]
  {
    assert PrimaryKeys(a + b) == PrimaryKeys(a) + PrimaryKeys(b);
  }
}
