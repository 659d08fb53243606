/** Calls of a rate-limiting script on one Redis key, in the order Redis runs them. */
module RedisCalls {
  import opened Basics

  /** One script call. `expired` says whether Redis has dropped the key by then if it may, which it may only once the
      key's deadline has passed. */
  datatype Call = Call(at: nat, expired: bool) {
    function Second(): nat { at / NS }
  }

  ghost predicate Ordered(calls: seq<Call>) {
    forall i, j :: 0 <= i <= j < |calls| ==> calls[i].at <= calls[j].at
  }

  ghost predicate NotAfter(calls: seq<Call>, at: nat) {
    Ordered(calls) && (calls != [] ==> calls[|calls|-1].at <= at)
  }

  lemma Prefix(calls: seq<Call>, next: Call)
    requires Ordered(calls + [next])
    ensures NotAfter(calls, next.at) && (calls + [next])[..|calls|] == calls
  {
    assert forall i :: 0 <= i < |calls| ==> (calls + [next])[i] == calls[i];
    assert (calls + [next])[|calls|] == next;
  }

  lemma OrderedPart(a: seq<Call>, b: seq<Call>, c: seq<Call>)
    requires Ordered(a + b + c)
    ensures Ordered(a + b)
  {
    assert forall i :: 0 <= i < |a + b| ==> (a + b)[i] == (a + b + c)[i];
  }
}
