/** The newly-registered-domain set: feed entries are normalised once when the set is
    built, and a lookup walks from the queried name up to its last two labels.
 */
module Nrd {
  import opened Names

  /** Some entry normalises to d, which is not blank. */
  predicate HasEntry(entries: seq<string>, d: string) {
    d != "" && exists k :: 0 <= k < |entries| && Normalize(entries[k]) == d
  }

  lemma HasEntryAppend(entries: seq<string>, e: string, d: string)
    ensures HasEntry(entries + [e], d) <==> HasEntry(entries, d) || (d != "" && Normalize(e) == d)
  {
    var r := entries + [e];
    assert r[|entries|] == e;
    assert forall k :: 0 <= k < |entries| ==> r[k] == entries[k];
  }

  class Set {
    var domains: set<string>

    constructor (entries: seq<string>)
      ensures forall d :: d in domains <==> HasEntry(entries, d)
    {
      var m: set<string> := {};
      for k := 0 to |entries|
        invariant forall d :: d in m <==> HasEntry(entries[..k], d)
      {
        var d := Normalize(entries[k]);
        forall e
          ensures HasEntry(entries[..k + 1], e) <==> HasEntry(entries[..k], e) || (e != "" && d == e)
        {
          HasEntryAppend(entries[..k], entries[k], e);
          assert entries[..k + 1] == entries[..k] + [entries[k]];
        }
        if d != "" {
          m := m + {d};
        }
      }
      assert entries[..|entries|] == entries;
      domains := m;
    }

    method Contains(domain: string) returns (b: bool)
      ensures b <==> exists e :: e in domains && IsAncestor(Normalize(domain), e)
    {
      var d := Normalize(domain);
      if domains == {} || d == "" {
        return false;
      }
      var n := |Labels(d)|;
      for i := 0 to n - 1
        invariant forall k :: 0 <= k < i ==> Candidate(d, k) !in domains
      {
        if Candidate(d, i) in domains {
          assert Visited(d, Candidate(d, i), 0);
          WalkVisitsAncestors(d, Candidate(d, i));
          return true;
        }
      }
      forall e | e in domains
        ensures !IsAncestor(d, e)
      {
        WalkVisitsAncestors(d, e);
      }
      return false;
    }
  }

  /** Building the set and looking a name up: a name is listed exactly when a feed entry of
      at least two labels is the name or a parent of it, both normalised once. */
  method IsListed(entries: seq<string>, domain: string) returns (b: bool)
    ensures b <==> exists e :: e in entries && IsAncestor(Normalize(domain), Normalize(e))
  {
    var s := new Set(entries);
    b := s.Contains(domain);
    if d :| d in s.domains && IsAncestor(Normalize(domain), d) {
      assert HasEntry(entries, d);
      var k :| 0 <= k < |entries| && Normalize(entries[k]) == d;
      assert entries[k] in entries;
    }
    if e :| e in entries && IsAncestor(Normalize(domain), Normalize(e)) {
      var k :| 0 <= k < |entries| && entries[k] == e;
      assert HasEntry(entries, Normalize(e));
    }
  }
}
