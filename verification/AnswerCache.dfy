/** The serve-stale answer cache: a recency list of bounded length over a map from keys to
    list elements. Every operation of the class is proved against an operation on a plain
    recency sequence, newest first; the lemmas speak of all runs of those.
 */
module AnswerCache {
  import opened Decimal
  import opened Dns
  import opened Names
  import opened Options

  const SECOND: int := 1_000_000_000

  // ----- keys and TTLs -----

  function CacheKey(q: Question): string {
    Lower(q.name) + "|" + Numeral(q.qtype) + "|" + Numeral(q.qclass)
  }

  lemma LastBarSplits(a: string, b: string, x: string, y: string)
    requires '|' !in b && '|' !in y
    requires a + "|" + b == x + "|" + y
    ensures a == x && b == y
  {
    var s := a + "|" + b;
    assert s[|a|] == '|' && s[|x|] == '|';
    assert forall k :: |a| < k < |s| ==> s[k] == b[k - |a| - 1];
    assert forall k :: |x| < k < |s| ==> s[k] == y[k - |x| - 1];
    assert |a| == |x|;
    assert s[..|a|] == a && s[..|x|] == x && s[|a| + 1..] == b && s[|x| + 1..] == y;
  }

  /** Two questions share a key exactly when their names agree up to case and their types and
      classes agree, bars in names notwithstanding. */
  lemma CacheKeyIdentifies(p: Question, q: Question)
    ensures CacheKey(p) == CacheKey(q) <==>
            Lower(p.name) == Lower(q.name) && p.qtype == q.qtype && p.qclass == q.qclass
  {
    if CacheKey(p) == CacheKey(q) {
      LastBarSplits(Lower(p.name) + "|" + Numeral(p.qtype), Numeral(p.qclass),
                    Lower(q.name) + "|" + Numeral(q.qtype), Numeral(q.qclass));
      LastBarSplits(Lower(p.name), Numeral(p.qtype), Lower(q.name), Numeral(q.qtype));
      NumeralRoundTrip(p.qtype);
      NumeralRoundTrip(q.qtype);
      NumeralRoundTrip(p.qclass);
      NumeralRoundTrip(q.qclass);
    }
  }

  predicate IsMinTtl(answer: seq<Record>, m: nat) {
    if |answer| == 0 then m == 0
    else (exists i :: 0 <= i < |answer| && answer[i].ttl == m) && forall i :: 0 <= i < |answer| ==> m <= answer[i].ttl
  }

  function MinTtl(answer: seq<Record>): (m: nat)
    ensures IsMinTtl(answer, m)
  {
    if |answer| == 0 then 0
    else if |answer| == 1 then answer[0].ttl
    else
      var init := answer[..|answer| - 1];
      var m := MinTtl(init);
      var last := answer[|answer| - 1].ttl;
      assert forall i :: 0 <= i < |init| ==> init[i] == answer[i];
      if last < m then last else m
  }

  method ComputeMinTtl(answer: seq<Record>) returns (m: nat)
    ensures m == MinTtl(answer)
  {
    m := 0;
    var first := true;
    for i := 0 to |answer|
      invariant first <==> i == 0
      invariant m == MinTtl(answer[..i])
    {
      assert answer[..i + 1][..i] == answer[..i];
      var t := answer[i].ttl;
      if first || t < m {
        m, first := t, false;
      }
    }
    assert answer[..|answer|] == answer;
  }

  // ----- the abstract cache -----

  datatype Item = Item(key: string, msg: Message, expiresAt: int)
  type Recency = seq<Item>

  function Position(items: Recency, key: string): (p: nat)
    ensures p <= |items|
    ensures p < |items| ==> items[p].key == key
    ensures forall i :: 0 <= i < p ==> items[i].key != key
  {
    if |items| == 0 || items[0].key == key then 0 else 1 + Position(items[1..], key)
  }

  function Without(items: Recency, key: string): Recency {
    var p := Position(items, key);
    if p == |items| then items else items[..p] + items[p + 1..]
  }

  function Lookup(items: Recency, key: string): Option<Item> {
    var p := Position(items, key);
    if p == |items| then None else Some(items[p])
  }

  function ExpiresAt(ttl: nat, now: int): int {
    now + ttl * SECOND
  }

  /** What a Put of an answer at an instant makes of the cache. */
  function AfterPut(max: nat, items: Recency, key: string, msg: Message, now: int): Recency {
    var ttl := MinTtl(msg.answer);
    if ttl == 0 then items
    else
      var all := [Item(key, msg, ExpiresAt(ttl, now))] + Without(items, key);
      if |all| > max then all[..|all| - 1] else all
  }

  function Touched(items: Recency, item: Item): Recency {
    [item] + Without(items, item.key)
  }

  /** A fresh lookup hits entries whose TTL has not run out. */
  function GetHit(items: Recency, key: string, now: int): Option<Item> {
    var it := Lookup(items, key);
    if it.None? || now > it.value.expiresAt then None else it
  }

  function AfterGet(items: Recency, key: string, now: int): Recency {
    var hit := GetHit(items, key, now);
    if hit.None? then items else Touched(items, hit.value)
  }

  /** A stale lookup also hits entries up to staleFor past that; older ones are discarded. */
  function StaleHit(staleFor: int, items: Recency, key: string, now: int): Option<Item> {
    var it := Lookup(items, key);
    if it.None? || now > it.value.expiresAt + staleFor then None else it
  }

  function AfterGetStale(staleFor: int, items: Recency, key: string, now: int): Recency {
    var hit := StaleHit(staleFor, items, key, now);
    if hit.None? then Without(items, key) else Touched(items, hit.value)
  }

  // ----- the implementation -----

  datatype CacheEntry = CacheEntry(msg: Message, expiresAt: int)

  /** List and map are in bijection and no key occurs twice. */
  ghost predicate Linked(ll: seq<LruItem>, items: map<string, LruItem>) {
    && (forall i, j :: 0 <= i < j < |ll| ==> ll[i].key != ll[j].key)
    && (forall i :: 0 <= i < |ll| ==> ll[i].key in items && items[ll[i].key] == ll[i])
    && (forall k :: k in items ==> items[k] in ll && items[k].key == k)
  }

  function ItemOf(el: LruItem): Item
    reads el
  {
    Item(el.key, el.entry.msg, el.entry.expiresAt)
  }

  ghost function ItemsOf(ll: seq<LruItem>): (r: Recency)
    reads ll
    ensures |r| == |ll| && forall i :: 0 <= i < |ll| ==> r[i] == ItemOf(ll[i])
  {
    seq(|ll|, i requires 0 <= i < |ll| reads ll => ItemOf(ll[i]))
  }

  /** Where the element of a mapped key stands in the list, and what lookup there finds. */
  lemma MapFinds(ll: seq<LruItem>, items: map<string, LruItem>, key: string) returns (p: nat)
    requires Linked(ll, items) && key in items
    ensures p < |ll| && ll[p] == items[key] && p == Position(ItemsOf(ll), key)
    ensures Lookup(ItemsOf(ll), key) == Some(ItemOf(items[key]))
  {
    p :| 0 <= p < |ll| && ll[p] == items[key];
    PositionAt(ll, items, p);
  }

  lemma PositionAt(ll: seq<LruItem>, items: map<string, LruItem>, p: nat)
    requires Linked(ll, items) && p < |ll|
    ensures Position(ItemsOf(ll), ll[p].key) == p
  {
    assert ItemsOf(ll)[p].key == ll[p].key;
    var q := Position(ItemsOf(ll), ll[p].key);
    assert q <= p && ItemsOf(ll)[q].key == ll[q].key;
  }

  lemma MapMisses(ll: seq<LruItem>, items: map<string, LruItem>, key: string)
    requires Linked(ll, items) && key !in items
    ensures Position(ItemsOf(ll), key) == |ll| && Lookup(ItemsOf(ll), key) == None
              && Without(ItemsOf(ll), key) == ItemsOf(ll)
  {
    forall i | 0 <= i < |ll|
      ensures ItemsOf(ll)[i].key != key
    {
      assert ll[i].key in items;
    }
  }

  /** Taking the element at p out of list and map. */
  lemma RemovedIsLinked(ll: seq<LruItem>, items: map<string, LruItem>, p: nat)
    requires Linked(ll, items) && p < |ll|
    ensures Linked(ll[..p] + ll[p + 1..], items - {ll[p].key})
  {
    var r, m := ll[..p] + ll[p + 1..], items - {ll[p].key};
    forall i | 0 <= i < |r|
      ensures r[i] == ll[if i < p then i else i + 1] && r[i].key in m && m[r[i].key] == r[i]
    {
    }
    forall k | k in m
      ensures m[k] in r
    {
      var i :| 0 <= i < |ll| && ll[i] == items[k];
      assert r[if i < p then i else i - 1] == items[k];
    }
  }

  lemma ItemsOfRemoved(ll: seq<LruItem>, p: nat)
    requires p < |ll|
    ensures ItemsOf(ll[..p] + ll[p + 1..]) == ItemsOf(ll)[..p] + ItemsOf(ll)[p + 1..]
  {
  }

  lemma PushedIsLinked(ll: seq<LruItem>, items: map<string, LruItem>, el: LruItem)
    requires Linked(ll, items) && el.key !in items
    ensures Linked([el] + ll, items[el.key := el])
  {
  }

  lemma ItemsOfPushed(ll: seq<LruItem>, el: LruItem)
    ensures ItemsOf([el] + ll) == [ItemOf(el)] + ItemsOf(ll)
  {
  }

  class LruItem {
    const key: string
    var entry: CacheEntry

    constructor (key: string, entry: CacheEntry)
      ensures this.key == key && this.entry == entry
    {
      this.key, this.entry := key, entry;
    }
  }

  /** The element at p taken out of the list and put back in front. */
  function Moved(ll: seq<LruItem>, p: nat): (r: seq<LruItem>)
    requires p < |ll|
    ensures |r| == |ll| && forall e :: e in r ==> e in ll
  {
    [ll[p]] + (ll[..p] + ll[p + 1..])
  }

  lemma MovedIsLinked(ll: seq<LruItem>, items: map<string, LruItem>, p: nat)
    requires Linked(ll, items) && p < |ll|
    ensures Linked(Moved(ll, p), items)
  {
    var key := ll[p].key;
    RemovedIsLinked(ll, items, p);
    PushedIsLinked(ll[..p] + ll[p + 1..], items - {key}, ll[p]);
    assert (items - {key})[key := ll[p]] == items;
  }

  lemma ItemsOfMoved(ll: seq<LruItem>, items: map<string, LruItem>, p: nat)
    requires Linked(ll, items) && p < |ll|
    ensures ItemsOf(Moved(ll, p)) == Touched(ItemsOf(ll), ItemOf(ll[p]))
  {
    WithoutElement(ll, items, p);
    ItemsOfPushed(ll[..p] + ll[p + 1..], ll[p]);
  }

  lemma WithoutElement(ll: seq<LruItem>, items: map<string, LruItem>, p: nat)
    requires Linked(ll, items) && p < |ll|
    ensures ItemsOf(ll[..p] + ll[p + 1..]) == Without(ItemsOf(ll), ll[p].key)
  {
    PositionAt(ll, items, p);
    ItemsOfRemoved(ll, p);
  }

  class Cache {
    const max: nat
    const staleFor: int
    var ll: seq<LruItem>
    var items: map<string, LruItem>

    ghost predicate Valid()
      reads this
    {
      max > 0 && staleFor > 0 && |ll| <= max && Linked(ll, items)
    }

    /** The list as a recency sequence, newest first. */
    ghost function Contents(): (r: Recency)
      reads this, ll
      ensures |r| == |ll|
    {
      ItemsOf(ll)
    }

    constructor (max: int, staleFor: int)
      ensures Valid() && Contents() == []
      ensures this.max == if max <= 0 then 20000 else max
      ensures this.staleFor == if staleFor <= 0 then 3600 * SECOND else staleFor
    {
      this.max := if max <= 0 then 20000 else max;
      this.staleFor := if staleFor <= 0 then 3600 * SECOND else staleFor;
      ll, items := [], map[];
    }

    method IndexOf(el: LruItem) returns (p: nat)
      requires el in ll
      ensures p < |ll| && ll[p] == el
    {
      p :| 0 <= p < |ll| && ll[p] == el;
    }

    /** The list with the element at p in front. */
    method PutInFront(p: nat) returns (moved: seq<LruItem>)
      requires Linked(ll, items) && p < |ll|
      ensures Linked(moved, items) && |moved| == |ll| && (forall e :: e in moved ==> e in ll)
      ensures ItemsOf(moved) == Touched(Contents(), ItemOf(ll[p]))
    {
      MovedIsLinked(ll, items, p);
      ItemsOfMoved(ll, items, p);
      moved := Moved(ll, p);
    }

    /** The list moves an element given its pointer, wherever it stands. */
    method MoveToFront(el: LruItem)
      requires Linked(ll, items) && el in ll
      modifies this`ll
      ensures Linked(ll, items) && |ll| == |old(ll)| && (forall e :: e in ll ==> e in old(ll))
      ensures Contents() == Touched(old(Contents()), ItemOf(el))
    {
      var p := IndexOf(el);
      var moved := PutInFront(p);
      ll := moved;
      assert ItemsOf(moved) == old(ItemsOf(moved));
    }

    method Remove(el: LruItem)
      requires Linked(ll, items) && el in ll
      modifies this
      ensures Linked(ll, items) && |ll| < |old(ll)|
      ensures Contents() == Without(old(Contents()), el.key)
    {
      var p := IndexOf(el);
      RemovedIsLinked(ll, items, p);
      WithoutElement(ll, items, p);
      ghost var left := Without(Contents(), el.key);
      assert ItemsOf(ll[..p] + ll[p + 1..]) == left;
      ll := ll[..p] + ll[p + 1..];
      items := items - {el.key};
      assert Contents() == left;
    }

    method EvictOldest()
      requires Linked(ll, items) && ll != []
      modifies this
      ensures Linked(ll, items) && ll == old(ll)[..|old(ll)| - 1] && (forall e :: e in ll ==> e in old(ll))
      ensures Contents() == old(Contents())[..|old(ll)| - 1]
    {
      ghost var p := |ll| - 1;
      RemovedIsLinked(ll, items, p);
      assert ll[..p] + ll[p + 1..] == ll[..p];
      var el := ll[|ll| - 1];
      ll := ll[..|ll| - 1];
      items := items - {el.key};
    }

    method PushFront(key: string, ent: CacheEntry)
      requires Linked(ll, items) && key !in items
      modifies this
      ensures Linked(ll, items) && |ll| == |old(ll)| + 1 && forall e :: e in ll && e !in old(ll) ==> fresh(e)
      ensures Contents() == [Item(key, ent.msg, ent.expiresAt)] + old(Contents())
    {
      var el := new LruItem(key, ent);
      PushedIsLinked(ll, items, el);
      ItemsOfPushed(ll, el);
      ll := [el] + ll;
      items := items[key := el];
    }

    method SetEntry(el: LruItem, ent: CacheEntry, ghost p: nat)
      requires Linked(ll, items) && p < |ll| && ll[p] == el
      modifies el
      ensures Contents() == old(Contents())[p := Item(el.key, ent.msg, ent.expiresAt)]
    {
      el.entry := ent;
    }

    /** Replaces the entry of an element in place and moves the element to the front. */
    method Refresh(el: LruItem, ent: CacheEntry)
      requires Linked(ll, items) && el in ll
      modifies this`ll, el
      ensures Linked(ll, items) && |ll| == |old(ll)| && (forall e :: e in ll ==> e in old(ll))
      ensures Contents() == Touched(old(Contents()), Item(el.key, ent.msg, ent.expiresAt))
    {
      ghost var was, item := Contents(), Item(el.key, ent.msg, ent.expiresAt);
      ghost var p :| 0 <= p < |ll| && ll[p] == el;
      PositionAt(ll, items, p);
      UpdateKeepsOthers(was, el.key, item);
      SetEntry(el, ent, p);
      MoveToFront(el);
    }

    /** A new element in front; the oldest one makes room when the list is over its bound. */
    method Insert(key: string, ent: CacheEntry)
      requires Valid() && key !in items
      modifies this
      ensures Valid() && forall e :: e in ll && e !in old(ll) ==> fresh(e)
      ensures var all := [Item(key, ent.msg, ent.expiresAt)] + old(Contents());
              Contents() == if |all| > max then all[..|all| - 1] else all
    {
      PushFront(key, ent);
      if |ll| > max {
        EvictOldest();
      }
    }

    method Put(key: string, msg: Message, now: int)
      requires Valid()
      modifies this, ll
      ensures Valid() && forall e :: e in ll && e !in old(ll) ==> fresh(e)
      ensures Contents() == AfterPut(max, old(Contents()), key, msg, now)
    {
      var ttl := ComputeMinTtl(msg.answer);
      assert Contents() == old(Contents());
      if ttl == 0 {
        return;
      }
      var ent := CacheEntry(msg, ExpiresAt(ttl, now));
      if key in items {
        ghost var p := MapFinds(ll, items, key);
        PutOfKnown(max, Contents(), key, msg, now);
        Refresh(items[key], ent);
        return;
      }
      MapMisses(ll, items, key);
      Insert(key, ent);
    }

    method Get(key: string, now: int) returns (hit: Option<CacheEntry>)
      requires Valid()
      modifies this
      ensures Valid()
      ensures hit == EntryOf(GetHit(old(Contents()), key, now))
      ensures Contents() == AfterGet(old(Contents()), key, now)
    {
      if key !in items {
        MapMisses(ll, items, key);
        return None;
      }
      ghost var p := MapFinds(ll, items, key);
      var el := items[key];
      var ent := el.entry;
      if now > ent.expiresAt {
        return None;
      }
      MoveToFront(el);
      return Some(ent);
    }

    method GetStale(key: string, now: int) returns (hit: Option<CacheEntry>)
      requires Valid()
      modifies this
      ensures Valid()
      ensures hit == EntryOf(StaleHit(staleFor, old(Contents()), key, now))
      ensures Contents() == AfterGetStale(staleFor, old(Contents()), key, now)
    {
      if key !in items {
        MapMisses(ll, items, key);
        return None;
      }
      ghost var p := MapFinds(ll, items, key);
      var el := items[key];
      assert el in ll;
      if now > el.entry.expiresAt + staleFor {
        assert StaleHit(staleFor, Contents(), key, now) == None;
        Remove(el);
        return None;
      }
      MoveToFront(el);
      return Some(el.entry);
    }
  }

  /** A Put replaces and promotes the entry of a key in use. */
  lemma PutOfKnown(max: nat, items: Recency, key: string, msg: Message, now: int)
    requires |items| <= max && MinTtl(msg.answer) > 0 && Position(items, key) < |items|
    ensures AfterPut(max, items, key, msg, now) == Touched(items, Item(key, msg, ExpiresAt(MinTtl(msg.answer), now)))
  {
  }

  lemma UpdateKeepsOthers(items: Recency, key: string, it: Item)
    requires it.key == key && Position(items, key) < |items|
    ensures var r := items[Position(items, key) := it];
            Position(r, key) == Position(items, key) && Without(r, key) == Without(items, key)
  {
    var p := Position(items, key);
    var r := items[p := it];
    assert Position(r, key) == p by {
      assert r[p].key == key && forall i :: 0 <= i < p ==> r[i].key != key;
    }
  }

  function EntryOf(it: Option<Item>): Option<CacheEntry> {
    if it.None? then None else Some(CacheEntry(it.value.msg, it.value.expiresAt))
  }

  // ----- all runs -----

  datatype Op =
    | PutOp(key: string, msg: Message, now: int)
    | GetOp(key: string, now: int)
    | GetStaleOp(key: string, now: int)

  function Apply(max: nat, staleFor: int, items: Recency, op: Op): Recency {
    match op
    case PutOp(key, msg, now) => AfterPut(max, items, key, msg, now)
    case GetOp(key, now) => AfterGet(items, key, now)
    case GetStaleOp(key, now) => AfterGetStale(staleFor, items, key, now)
  }

  function Run(max: nat, staleFor: int, ops: seq<Op>): Recency {
    if |ops| == 0 then [] else Apply(max, staleFor, Run(max, staleFor, ops[..|ops| - 1]), ops[|ops| - 1])
  }

  /** The last operation stores an answer, or returns one. */
  predicate Uses(staleFor: int, items: Recency, op: Op, key: string) {
    op.key == key &&
    match op
    case PutOp(_, msg, _) => MinTtl(msg.answer) > 0
    case GetOp(_, now) => GetHit(items, key, now).Some?
    case GetStaleOp(_, now) => StaleHit(staleFor, items, key, now).Some?
  }

  /** When the key was last stored or returned; -1 if never. */
  function LastUse(max: nat, staleFor: int, ops: seq<Op>, key: string): (t: int)
    ensures -1 <= t < |ops|
  {
    if |ops| == 0 then -1
    else
      var init, op := ops[..|ops| - 1], ops[|ops| - 1];
      if Uses(staleFor, Run(max, staleFor, init), op, key) then |ops| - 1 else LastUse(max, staleFor, init, key)
  }

  /** The last Put of an answer with positive minimum TTL for the key; -1 if none. */
  function LastPut(ops: seq<Op>, key: string): (t: int)
    ensures -1 <= t < |ops|
    ensures t >= 0 ==> ops[t].PutOp? && ops[t].key == key && MinTtl(ops[t].msg.answer) > 0
  {
    if |ops| == 0 then -1
    else
      var op := ops[|ops| - 1];
      if op.PutOp? && op.key == key && MinTtl(op.msg.answer) > 0 then |ops| - 1
      else LastPut(ops[..|ops| - 1], key)
  }

  /** An item is the one its key's last effective Put stored. */
  predicate FromLastPut(ops: seq<Op>, it: Item) {
    var t := LastPut(ops, it.key);
    t >= 0 && it == Item(it.key, ops[t].msg, ExpiresAt(MinTtl(ops[t].msg.answer), ops[t].now))
  }

  /** What is left of the cache besides a new or moved front stays in order. */
  lemma ApplyShape(max: nat, staleFor: int, items: Recency, op: Op)
    requires |items| <= max && max > 0
    ensures var r := Apply(max, staleFor, items, op);
            Shape(Uses(staleFor, items, op, op.key), op.key, max, items, r)
  {
  }

  /** What Without and the shape of a step say, in terms of the old items alone. */
  ghost predicate Shape(used: bool, key: string, max: nat, items: Recency, r: Recency) {
    if used then 0 < |r| <= max && r[0].key == key && r[1..] <= Without(items, key)
    else r == items || r == Without(items, key)
  }

  ghost predicate Ordered(use: string -> int, items: Recency) {
    && (forall i :: 0 <= i < |items| ==> use(items[i].key) >= 0)
    && (forall i, j :: 0 <= i < j < |items| ==> use(items[i].key) > use(items[j].key))
  }

  /** In an ordered cache keys are distinct: dropping one leaves the others, still in order. */
  lemma WithoutKeepsOrder(use: string -> int, items: Recency, key: string)
    requires Ordered(use, items)
    ensures var r := Without(items, key);
            && Ordered(use, r) && |r| <= |items|
            && (forall i :: 0 <= i < |r| ==> r[i].key != key && r[i] in items)
  {
    var p, r := Position(items, key), Without(items, key);
    forall i | 0 <= i < |r|
      ensures r[i] == items[if i < p then i else i + 1] && r[i].key != key
    {
      var j := if i < p then i else i + 1;
      assert p < |items| ==> use(items[p].key) != use(items[j].key);
    }
  }

  /** One step keeps the order when the key it uses becomes the most recent of all. */
  lemma StepKeepsOrder(use0: string -> int, use1: string -> int, n: int, used: bool, key: string,
                       max: nat, items: Recency, r: Recency)
    requires Ordered(use0, items) && n >= 0 && forall k :: use0(k) < n
    requires forall k :: use1(k) == if used && k == key then n else use0(k)
    requires Shape(used, key, max, items, r)
    ensures Ordered(use1, r)
  {
    WithoutKeepsOrder(use0, items, key);
    if used {
      var rest := r[1..];
      assert forall i :: 0 < i < |r| ==> r[i] == rest[i - 1] == Without(items, key)[i - 1];
    }
  }

  ghost function UseOf(max: nat, staleFor: int, ops: seq<Op>): string -> int {
    k => LastUse(max, staleFor, ops, k)
  }

  lemma UseAfterStep(max: nat, staleFor: int, ops: seq<Op>)
    requires |ops| > 0
    ensures var init, op := ops[..|ops| - 1], ops[|ops| - 1];
            var used := Uses(staleFor, Run(max, staleFor, init), op, op.key);
            forall k :: UseOf(max, staleFor, ops)(k) ==
              if used && k == op.key then |ops| - 1 else UseOf(max, staleFor, init)(k)
  {
  }

  /** Main result: after every run the cache is within its bound and lists its entries from
      the most to the least recently used; in particular no key occurs twice. */
  lemma {:induction false} RecencyOrder(max: nat, staleFor: int, ops: seq<Op>)
    requires max > 0
    ensures |Run(max, staleFor, ops)| <= max
    ensures Ordered(UseOf(max, staleFor, ops), Run(max, staleFor, ops))
  {
    if |ops| > 0 {
      var init, op := ops[..|ops| - 1], ops[|ops| - 1];
      var items := Run(max, staleFor, init);
      RecencyOrder(max, staleFor, init);
      WithoutKeepsOrder(UseOf(max, staleFor, init), items, op.key);
      ApplyShape(max, staleFor, items, op);
      UseAfterStep(max, staleFor, ops);
      StepKeepsOrder(UseOf(max, staleFor, init), UseOf(max, staleFor, ops), |ops| - 1,
                     Uses(staleFor, items, op, op.key), op.key, max, items, Run(max, staleFor, ops));
    }
  }

  /** The entry an insertion drops was used less recently than every entry that stays. */
  lemma OverflowDropsLeastRecentlyUsed(max: nat, staleFor: int, ops: seq<Op>, key: string, msg: Message, now: int,
                                       kept: nat)
    requires max > 0
    requires var items := Run(max, staleFor, ops);
             |items| == max && Position(items, key) == max && MinTtl(msg.answer) > 0
    requires kept < max
    ensures var items := Run(max, staleFor, ops);
            var after := ops + [PutOp(key, msg, now)];
            var r := Run(max, staleFor, after);
            && |r| == max && r[0].key == key && r[1..] == items[..max - 1]
            && LastUse(max, staleFor, after, items[max - 1].key) < LastUse(max, staleFor, after, r[kept].key)
  {
    var items := Run(max, staleFor, ops);
    var after := ops + [PutOp(key, msg, now)];
    assert after[..|ops|] == ops;
    RecencyOrder(max, staleFor, ops);
    RecencyOrder(max, staleFor, after);
    UseAfterStep(max, staleFor, after);
    var r, use := Run(max, staleFor, after), UseOf(max, staleFor, after);
    var dropped := items[max - 1].key;
    assert dropped != key && use(dropped) == UseOf(max, staleFor, ops)(dropped);
    if kept > 0 {
      assert r[kept] == r[1..][kept - 1] == items[kept - 1];
    }
  }

  predicate Discards(staleFor: int, items: Recency, op: Op, key: string) {
    op.GetStaleOp? && op.key == key && Lookup(items, key).Some?
        && op.now > Lookup(items, key).value.expiresAt + staleFor
  }

  /** In one step: the key is discarded as too old, or it stood last when another came in. */
  lemma KeyLeavesOneStep(max: nat, staleFor: int, items: Recency, op: Op, key: string)
    requires |items| <= max && max > 0
    requires Lookup(items, key).Some? && Lookup(Apply(max, staleFor, items, op), key).None?
    ensures var r, w := Apply(max, staleFor, items, op), Without(items, op.key);
            || Discards(staleFor, items, op, key)
            || (op.PutOp? && op.key != key && MinTtl(op.msg.answer) > 0
                && |r| == max == |w| && w[max - 1].key == key && r[0].key == op.key && r[1..] == w[..max - 1])
  {
    var r, w := Apply(max, staleFor, items, op), Without(items, op.key);
    if op.key != key {
      var k := OthersStay(items, op.key, Position(items, key));
      ApplyShape(max, staleFor, items, op);
      assert w[k] !in r;
      assert w[k] !in r[1..];
    }
  }

  /** A key leaves the cache in two ways only: a stale lookup finds it past its retention
      time, or an insertion of another key into a full cache drops it and every entry that
      stays was used more recently. */
  lemma KeyLeavesOnlyTwoWays(max: nat, staleFor: int, ops: seq<Op>, key: string)
    requires max > 0 && |ops| > 0
    requires Lookup(Run(max, staleFor, ops[..|ops| - 1]), key).Some?
    requires Lookup(Run(max, staleFor, ops), key).None?
    ensures var items, r := Run(max, staleFor, ops[..|ops| - 1]), Run(max, staleFor, ops);
            var op, use := ops[|ops| - 1], UseOf(max, staleFor, ops);
            || Discards(staleFor, items, op, key)
            || (op.PutOp? && op.key != key && |r| == max && forall i :: 0 <= i < max ==> use(r[i].key) > use(key))
  {
    var init, op := ops[..|ops| - 1], ops[|ops| - 1];
    var items, r := Run(max, staleFor, init), Run(max, staleFor, ops);
    var use0 := UseOf(max, staleFor, init);
    RecencyOrder(max, staleFor, init);
    KeyLeavesOneStep(max, staleFor, items, op, key);
    if !Discards(staleFor, items, op, key) {
      var w := Without(items, op.key);
      WithoutKeepsOrder(use0, items, op.key);
      UseAfterStep(max, staleFor, ops);
      assert forall i :: 0 < i < max ==> r[i] == r[1..][i - 1] == w[i - 1];
    }
  }

  lemma OthersStay(items: Recency, removed: string, p: nat) returns (k: nat)
    requires p < |items| && items[p].key != removed
    ensures k < |Without(items, removed)| && Without(items, removed)[k] == items[p]
  {
    k := if p < Position(items, removed) then p else p - 1;
  }

  lemma WithoutMember(items: Recency, removed: string, k: nat) returns (p: nat)
    requires k < |Without(items, removed)|
    ensures p < |items| && items[p] == Without(items, removed)[k]
  {
    p := if k < Position(items, removed) then k else k + 1;
  }

  predicate Stores(op: Op) {
    op.PutOp? && MinTtl(op.msg.answer) > 0
  }

  /** An item after an operation is the one it stored, or one that was there under a key it
      did not store. */
  lemma StepOrigin(max: nat, staleFor: int, items: Recency, op: Op, i: nat) returns (j: nat)
    requires max > 0 && |items| <= max && i < |Apply(max, staleFor, items, op)|
    requires forall k :: 0 <= k < |Without(items, op.key)| ==> Without(items, op.key)[k].key != op.key
    ensures var it := Apply(max, staleFor, items, op)[i];
            || (Stores(op) && it == Item(op.key, op.msg, ExpiresAt(MinTtl(op.msg.answer), op.now)))
            || (j < |items| && items[j] == it && !(Stores(op) && op.key == it.key))
  {
    var r := Apply(max, staleFor, items, op);
    ApplyShape(max, staleFor, items, op);
    j := 0;
    if Uses(staleFor, items, op, op.key) {
      if i > 0 {
        assert r[i] == r[1..][i - 1];
        j := WithoutMember(items, op.key, i - 1);
      } else if !Stores(op) {
        j := Position(items, op.key);
      }
    } else if r == items {
      j := i;
    } else {
      j := WithoutMember(items, op.key, i);
    }
  }

  lemma ItemOrigin(max: nat, staleFor: int, ops: seq<Op>, i: nat) returns (j: nat)
    requires max > 0 && |ops| > 0 && i < |Run(max, staleFor, ops)|
    ensures var init, op := ops[..|ops| - 1], ops[|ops| - 1];
            var items, it := Run(max, staleFor, init), Run(max, staleFor, ops)[i];
            || (Stores(op) && it == Item(op.key, op.msg, ExpiresAt(MinTtl(op.msg.answer), op.now)))
            || (j < |items| && items[j] == it && !(Stores(op) && op.key == it.key))
  {
    var init, op := ops[..|ops| - 1], ops[|ops| - 1];
    RecencyOrder(max, staleFor, init);
    WithoutKeepsOrder(UseOf(max, staleFor, init), Run(max, staleFor, init), op.key);
    j := StepOrigin(max, staleFor, Run(max, staleFor, init), op, i);
  }

  /** Every cached item is the one its key's latest effective Put stored. */
  lemma {:induction false} ItemsAreLatestPuts(max: nat, staleFor: int, ops: seq<Op>, i: nat)
    requires max > 0 && i < |Run(max, staleFor, ops)|
    ensures FromLastPut(ops, Run(max, staleFor, ops)[i])
  {
    var op := ops[|ops| - 1];
    var j := ItemOrigin(max, staleFor, ops, i);
    if !(Stores(op) && op.key == Run(max, staleFor, ops)[i].key) {
      ItemsAreLatestPuts(max, staleFor, ops[..|ops| - 1], j);
    }
  }

  /** A stale hit returns the message of the latest Put for its key whose answer had a
      positive minimum TTL, and no later than that TTL plus the retention time allows. */
  lemma StaleHitIsLatestPut(max: nat, staleFor: int, ops: seq<Op>, key: string, now: int)
    requires max > 0
    ensures var hit := StaleHit(staleFor, Run(max, staleFor, ops), key, now);
            hit.Some? ==>
              var t := LastPut(ops, key);
              && t >= 0 && hit.value.msg == ops[t].msg
              && now <= ExpiresAt(MinTtl(ops[t].msg.answer), ops[t].now) + staleFor
  {
    var items := Run(max, staleFor, ops);
    if Position(items, key) < |items| {
      ItemsAreLatestPuts(max, staleFor, ops, Position(items, key));
    }
  }

  /** The t-th operation is the latest to store an answer under the key. */
  predicate IsLatestStore(ops: seq<Op>, key: string, t: nat) {
    && t < |ops| && Stores(ops[t]) && ops[t].key == key
    && forall u :: t < u < |ops| && Stores(ops[u]) ==> ops[u].key != key
  }

  lemma {:induction false} LatestStoreIsLastPut(ops: seq<Op>, key: string)
    ensures LastPut(ops, key) >= 0 ==> IsLatestStore(ops, key, LastPut(ops, key))
    ensures LastPut(ops, key) < 0 ==> forall u :: 0 <= u < |ops| && Stores(ops[u]) ==> ops[u].key != key
  {
    if |ops| > 0 {
      var init := ops[..|ops| - 1];
      LatestStoreIsLastPut(init, key);
      assert forall u :: 0 <= u < |init| ==> init[u] == ops[u];
    }
  }

  /** A key in the cache is hit as long as the smallest TTL of the answer stored last under it,
      counted from when that was stored, has not run out; by a stale lookup for the retention
      time longer. The answer returned is that one. */
  lemma HitIff(max: nat, staleFor: int, ops: seq<Op>, key: string, now: int, t: nat)
    requires max > 0 && IsLatestStore(ops, key, t)
    ensures var items := Run(max, staleFor, ops);
            var cached := exists i :: 0 <= i < |items| && items[i].key == key;
            var until := ops[t].now + MinTtl(ops[t].msg.answer) * 1_000_000_000;
            var hit, stale := GetHit(items, key, now), StaleHit(staleFor, items, key, now);
            && (hit.Some? <==> cached && now <= until) && (stale.Some? <==> cached && now <= until + staleFor)
            && (hit.Some? ==> hit.value.msg == ops[t].msg) && (stale.Some? ==> stale.value.msg == ops[t].msg)
  {
    var items := Run(max, staleFor, ops);
    if Position(items, key) < |items| {
      CachedItemIsStored(max, staleFor, ops, Position(items, key), t);
    }
    HitWithin(staleFor, items, key, now, ops[t].msg, ops[t].now + MinTtl(ops[t].msg.answer) * 1_000_000_000);
  }

  lemma CachedItemIsStored(max: nat, staleFor: int, ops: seq<Op>, i: nat, t: nat)
    requires max > 0 && i < |Run(max, staleFor, ops)| && IsLatestStore(ops, Run(max, staleFor, ops)[i].key, t)
    ensures var it := Run(max, staleFor, ops)[i];
            it == Item(it.key, ops[t].msg, ops[t].now + MinTtl(ops[t].msg.answer) * 1_000_000_000)
  {
    LatestStoreIsLastPut(ops, Run(max, staleFor, ops)[i].key);
    ItemsAreLatestPuts(max, staleFor, ops, i);
  }

  lemma HitWithin(staleFor: int, items: Recency, key: string, now: int, msg: Message, until: int)
    requires Position(items, key) < |items| ==> items[Position(items, key)] == Item(key, msg, until)
    ensures var cached := exists i :: 0 <= i < |items| && items[i].key == key;
            var hit, stale := GetHit(items, key, now), StaleHit(staleFor, items, key, now);
            && (hit.Some? <==> cached && now <= until) && (stale.Some? <==> cached && now <= until + staleFor)
            && (hit.Some? ==> hit.value.msg == msg) && (stale.Some? ==> stale.value.msg == msg)
  {
  }

  /** A key under which no answer was stored is not in the cache. */
  lemma NothingStoredIsMissed(max: nat, staleFor: int, ops: seq<Op>, key: string)
    requires max > 0 && forall u :: 0 <= u < |ops| && Stores(ops[u]) ==> ops[u].key != key
    ensures forall i :: 0 <= i < |Run(max, staleFor, ops)| ==> Run(max, staleFor, ops)[i].key != key
  {
    LatestStoreIsLastPut(ops, key);
    forall i | 0 <= i < |Run(max, staleFor, ops)|
      ensures Run(max, staleFor, ops)[i].key != key
    {
      ItemsAreLatestPuts(max, staleFor, ops, i);
    }
  }

  /** Whatever a fresh lookup finds, a stale lookup at the same instant finds too, and the
      two leave the same cache. */
  lemma FreshHitIsStaleHit(staleFor: int, items: Recency, key: string, now: int)
    requires staleFor >= 0 && GetHit(items, key, now).Some?
    ensures StaleHit(staleFor, items, key, now) == GetHit(items, key, now)
    ensures AfterGetStale(staleFor, items, key, now) == AfterGet(items, key, now)
  {
  }
}
