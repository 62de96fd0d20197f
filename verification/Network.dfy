/**
 Waiting for the network to come back.

 `Condition` is a set-once flag shared with every waiter that was handed it.  The ghost history
 of reachability reports says what the flags must be.
 */
module Network {
  datatype Status = Online | Offline

  class Condition {
    var flag: bool
    // How many reports had been made when the condition was created.
    ghost const born: nat

    constructor (ghost born: nat)
      ensures !flag && this.born == born
    {
      flag := false;
      this.born := born;
    }

    method Set()
      modifies this
      ensures flag
    {
      flag := true;
    }
  }

  // The status after these reports: the last one, and online before any.
  function StatusAfter(reports: seq<bool>): Status {
    if reports == [] || reports[|reports| - 1] then Online else Offline
  }

  // Some report from position i on said that the network is reachable.
  predicate CameBack(reports: seq<bool>, i: nat) {
    exists k :: i <= k < |reports| && reports[k]
  }

  class NetworkStatus {
    var status: Status
    var pendingReconnect: Condition?
    // Changes announced so far.
    var announced: seq<Status>
    ghost var reports: seq<bool>
    // Every condition created so far, whether or not anybody waits on it.
    ghost var conditions: set<Condition>

    ghost predicate Valid()
      reads this, conditions
    {
      && status == StatusAfter(reports)
      && (pendingReconnect != null <==> status == Offline)
      && (pendingReconnect != null ==> pendingReconnect in conditions && !pendingReconnect.flag)
      && (forall c :: c in conditions ==> c.born <= |reports| && (c.flag <==> CameBack(reports, c.born)))
      && (forall c :: c in conditions && c != pendingReconnect ==> c.flag)
    }

    constructor ()
      ensures Valid() && status == Online && reports == [] && conditions == {} && announced == []
    {
      status, pendingReconnect, announced := Online, null, [];
      reports, conditions := [], {};
    }

    /** A report changes the status to what it says.  Turning online sets every condition ever
        handed out; turning offline creates one fresh pending condition; a report of no change
        touches nothing.  Each change, and nothing else, is announced. */
    method ReachabilityChanged(reachable: bool)
      requires Valid()
      modifies this, conditions
      ensures Valid() && reports == old(reports) + [reachable]
      ensures status == if reachable then Online else Offline
      ensures status == Online ==> forall c :: c in conditions ==> c.flag
      ensures old(conditions) <= conditions && fresh(conditions - old(conditions))
      ensures status == Offline && old(status) == Online ==>
                conditions == old(conditions) + {pendingReconnect} && fresh(pendingReconnect)
      ensures status == old(status) ==> pendingReconnect == old(pendingReconnect) && conditions == old(conditions)
      ensures announced == old(announced) + if status == old(status) then [] else [status]
    {
      var oldStatus := status;
      var newStatus := if reachable then Online else Offline;
      ghost var before := reports;
      reports := reports + [reachable];
      assert forall i: nat :: i <= |before| ==> (CameBack(reports, i) <==> CameBack(before, i) || reachable) by {
        Extended(before, reachable);
      }
      if oldStatus != newStatus {
        status := newStatus;
        if newStatus == Online {
          if pendingReconnect != null {
            var condition := pendingReconnect;
            pendingReconnect := null;
            condition.Set();
          }
        } else {
          pendingReconnect := new Condition(|reports|);
          conditions := conditions + {pendingReconnect};
        }
        announced := announced + [newStatus];
      }
    }

    /** A waiter is handed the pending condition exactly when offline; online it gets none and
        goes ahead at once. */
    method WaitUntilOnline() returns (condition: Condition?)
      requires Valid()
      ensures condition == pendingReconnect
      ensures condition != null <==> status == Offline
      ensures condition != null ==> condition in conditions && !condition.flag
    {
      condition := pendingReconnect;
    }

    /** A waiter that was handed a condition after i reports, while it was pending, is blocked now
        exactly when the network has been offline ever since; and then it holds the pending one. */
    lemma WaiterIsBlockedIff(condition: Condition, i: nat)
      requires Valid() && condition in conditions
      requires condition.born <= i <= |reports| && !CameBack(reports[..i], condition.born)
      ensures !condition.flag <==> forall k :: i < k <= |reports| ==> StatusAfter(reports[..k]) == Offline
      ensures !condition.flag ==> condition == pendingReconnect && status == Offline
    {
      CameBackSplits(reports, condition.born, i);
      CameBackMeansOnline(reports, i);
    }
  }

  lemma CameBackSplits(reports: seq<bool>, b: nat, i: nat)
    requires b <= i <= |reports|
    ensures CameBack(reports, b) <==> CameBack(reports[..i], b) || CameBack(reports, i)
  {
    if k :| b <= k < |reports| && reports[k] {
      assert if k < i then reports[..i][k] else reports[k];
    }
    if k :| b <= k < i && reports[..i][k] { assert reports[k]; }
  }

  lemma CameBackMeansOnline(reports: seq<bool>, i: nat)
    requires i <= |reports|
    ensures CameBack(reports, i) <==> exists k :: i < k <= |reports| && StatusAfter(reports[..k]) == Online
  {
    if k :| i <= k < |reports| && reports[k] {
      assert StatusAfter(reports[..k + 1]) == Online;
    }
    if k :| i < k <= |reports| && StatusAfter(reports[..k]) == Online {
      assert reports[k - 1];
    }
  }

  lemma Extended(reports: seq<bool>, last: bool)
    ensures forall i: nat :: i <= |reports| ==> (CameBack(reports + [last], i) <==> CameBack(reports, i) || last)
  {
    forall i: nat | i <= |reports| ensures CameBack(reports + [last], i) <==> CameBack(reports, i) || last {
      var longer := reports + [last];
      if CameBack(reports, i) {
        var k :| i <= k < |reports| && reports[k];
        assert longer[k];
      }
      if last { assert longer[|reports|]; }
    }
  }
}
