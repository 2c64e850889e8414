/** Building a reply from a cached answer: the records are copied and the copies' TTLs are
    rewritten in place, so the cached records keep theirs.
 */
module StaleReply {

  class Record {
    const data: string
    var ttl: nat

    constructor (data: string, ttl: nat)
      ensures this.data == data && this.ttl == ttl
    {
      this.data, this.ttl := data, ttl;
    }
  }

  method CopyRecords(rrs: seq<Record?>) returns (copies: seq<Record?>)
    ensures |copies| == |rrs|
    ensures forall i :: 0 <= i < |rrs| ==> (copies[i] == null <==> rrs[i] == null)
    ensures forall i :: 0 <= i < |rrs| && rrs[i] != null ==>
              fresh(copies[i]) && copies[i].data == rrs[i].data && copies[i].ttl == rrs[i].ttl
  {
    copies := [];
    for k := 0 to |rrs|
      invariant |copies| == k
      invariant forall i :: 0 <= i < k ==> (copies[i] == null <==> rrs[i] == null)
      invariant forall i :: 0 <= i < k && rrs[i] != null ==>
                  fresh(copies[i]) && copies[i].data == rrs[i].data && copies[i].ttl == rrs[i].ttl
    {
      if rrs[k] == null {
        copies := copies + [null];
      } else {
        var c := new Record(rrs[k].data, rrs[k].ttl);
        copies := copies + [c];
      }
    }
  }

  method SetTtl(rrs: seq<Record?>, ttl: nat)
    modifies set r: Record | r in rrs
    ensures forall i :: 0 <= i < |rrs| && rrs[i] != null ==> rrs[i].ttl == ttl
  {
    for k := 0 to |rrs|
      invariant forall i :: 0 <= i < k && rrs[i] != null ==> rrs[i].ttl == ttl
    {
      if rrs[k] != null {
        assert rrs[k] in rrs;
        rrs[k].ttl := ttl;
      }
    }
  }

  /** Same records in the same order, every TTL set to the given one, whether the stored one
      was larger or smaller; no stored record changes. */
  method Reply(answer: seq<Record?>, ns: seq<Record?>, ttl: nat) returns (a: seq<Record?>, n: seq<Record?>)
    ensures |a| == |answer| && |n| == |ns|
    ensures forall i :: 0 <= i < |answer| ==> (a[i] == null <==> answer[i] == null)
    ensures forall i :: 0 <= i < |ns| ==> (n[i] == null <==> ns[i] == null)
    ensures forall i :: 0 <= i < |answer| && answer[i] != null ==>
              fresh(a[i]) && a[i].data == answer[i].data && a[i].ttl == ttl
    ensures forall i :: 0 <= i < |ns| && ns[i] != null ==> fresh(n[i]) && n[i].data == ns[i].data && n[i].ttl == ttl
  {
    a := CopyRecords(answer);
    n := CopyRecords(ns);
    assert forall r: Record :: r in a ==> fresh(r);
    assert forall r: Record :: r in n ==> fresh(r);
    SetTtl(a, ttl);
    SetTtl(n, ttl);
  }
}
