/** The participant verifier's cache (internal/blockchain/verifier.go): a map and a recency list kept together. */
module VerifierCache {
  import opened ByteStrings
  import opened Sets

  type Key = string

  datatype Entry = Entry(key: Key, active: bool, expires: int)

  /** A lookup, or an answer of the contract that is stored. */
  datatype Event = Lookup(key: Key, now: int) | Answered(key: Key, active: bool, now: int)

  // ---------------------------------------------------------------- the list as a value, most recent first

  function Get(list: seq<Entry>, key: Key): (r: Option<Entry>)
    ensures r.Some? ==> r.value in list && r.value.key == key
  {
    if list == [] then None
    else if list[0].key == key then Some(list[0])
    else Get(list[1..], key)
  }

  function Without(list: seq<Entry>, key: Key): (rest: seq<Entry>) {
    if list == [] then []
    else if list[0].key == key then list[1..]
    else [list[0]] + Without(list[1..], key)
  }

  function Evicted(list: seq<Entry>, size: nat): (r: seq<Entry>) {
    if |list| > size then list[..|list| - 1] else list
  }

  function Step(size: nat, ttl: int, list: seq<Entry>, e: Event): (r: seq<Entry>) {
    var found := Get(list, e.key);
    match e
    case Lookup(key, now) =>
      if found.None? then list
      else if now > found.value.expires then Without(list, key)
      else [found.value] + Without(list, key)
    case Answered(key, active, now) =>
      var entry := Entry(key, active, now + ttl);
      if found.Some? then [entry] + Without(list, key) else Evicted([entry] + list, size)
  }

  /** The list after a history of events. */
  function Run(size: nat, ttl: int, h: seq<Event>): (list: seq<Entry>) {
    if h == [] then [] else Step(size, ttl, Run(size, ttl, h[..|h| - 1]), h[|h| - 1])
  }

  /** What a lookup answers. */
  function Answer(list: seq<Entry>, key: Key, now: int): (r: Option<bool>) {
    var found := Get(list, key);
    if found.Some? && now <= found.value.expires then Some(found.value.active) else None
  }

  function KeysOf(list: seq<Entry>): (s: set<Key>) {
    if list == [] then {} else {list[0].key} + KeysOf(list[1..])
  }

  // ---------------------------------------------------------------- what the history says

  /** When the key was last mentioned, or -1. */
  function LastUse(h: seq<Event>, key: Key): (i: int) {
    if h == [] then -1
    else if h[|h| - 1].key == key then |h| - 1
    else LastUse(h[..|h| - 1], key)
  }

  /** When the contract last answered for the key, or -1. */
  function LastAnswer(h: seq<Event>, key: Key): (i: int) {
    if h == [] then -1
    else if h[|h| - 1].Answered? && h[|h| - 1].key == key then |h| - 1
    else LastAnswer(h[..|h| - 1], key)
  }

  lemma {:induction false} LastUseIsLast(h: seq<Event>, key: Key)
    ensures var i := LastUse(h, key);
            && -1 <= i < |h| && (i >= 0 ==> h[i].key == key)
            && forall j :: i < j < |h| ==> h[j].key != key
  {
    if h != [] { LastUseIsLast(h[..|h| - 1], key); }
  }

  lemma {:induction false} LastAnswerIsLast(h: seq<Event>, key: Key)
    ensures var i := LastAnswer(h, key);
            && -1 <= i < |h| && (i >= 0 ==> h[i].Answered? && h[i].key == key)
            && forall j :: i < j < |h| ==> !(h[j].Answered? && h[j].key == key)
  {
    if h != [] { LastAnswerIsLast(h[..|h| - 1], key); }
  }

  lemma LastSnoc(h: seq<Event>, e: Event, key: Key)
    ensures LastUse(h + [e], key) == if e.key == key then |h| else LastUse(h, key)
    ensures LastAnswer(h + [e], key) == if e.key == key && e.Answered? then |h| else LastAnswer(h, key)
  {
    assert (h + [e])[..|h|] == h;
  }

  /** In order of last use, the most recent first, all of it before `bound`. */
  ghost predicate ByRecency(list: seq<Entry>, h: seq<Event>, bound: int) {
    list == [] || (var u := LastUse(h, list[0].key); 0 <= u < bound && ByRecency(list[1..], h, u))
  }

  /** The entry repeats the contract's latest answer for its key. */
  ghost predicate Backed(e: Entry, ttl: int, h: seq<Event>) {
    var i := LastAnswer(h, e.key);
    0 <= i < |h| && h[i].Answered? && h[i].active == e.active && e.expires == h[i].now + ttl
  }

  ghost predicate AllBacked(list: seq<Entry>, ttl: int, h: seq<Event>) {
    list == [] || (Backed(list[0], ttl, h) && AllBacked(list[1..], ttl, h))
  }

  // ---------------------------------------------------------------- recency, step by step

  lemma {:induction false} BelowBound(list: seq<Entry>, h: seq<Event>, bound: int, key: Key)
    requires ByRecency(list, h, bound) && key in KeysOf(list)
    ensures 0 <= LastUse(h, key) < bound
  {
    if key != list[0].key { BelowBound(list[1..], h, LastUse(h, list[0].key), key); }
  }

  lemma {:induction false} Widen(list: seq<Entry>, h: seq<Event>, bound: int, wider: int)
    requires ByRecency(list, h, bound) && bound <= wider
    ensures ByRecency(list, h, wider)
  {
  }

  lemma {:induction false} GetFinds(list: seq<Entry>, key: Key)
    ensures Get(list, key).Some? <==> key in KeysOf(list)
  {
    if list != [] { GetFinds(list[1..], key); }
  }

  /** Taking a key out keeps the order and drops exactly that key. */
  lemma {:induction false} WithoutKeeps(list: seq<Entry>, h: seq<Event>, bound: int, key: Key)
    requires ByRecency(list, h, bound)
    ensures ByRecency(Without(list, key), h, bound) && KeysOf(Without(list, key)) == KeysOf(list) - {key}
    ensures |Without(list, key)| == |list| - (if key in KeysOf(list) then 1 else 0)
  {
    if list != [] {
      var u := LastUse(h, list[0].key);
      if list[0].key == key {
        Widen(list[1..], h, u, bound);
        if key in KeysOf(list[1..]) { BelowBound(list[1..], h, u, key); }
      } else {
        WithoutKeeps(list[1..], h, u, key);
        var rest := Without(list, key);
        assert rest[0] == list[0] && rest[1..] == Without(list[1..], key);
      }
    }
  }

  /** An event for another key leaves the order as it is. */
  lemma {:induction false} OtherUse(list: seq<Entry>, h: seq<Event>, bound: int, e: Event)
    requires ByRecency(list, h, bound) && e.key !in KeysOf(list)
    ensures ByRecency(list, h + [e], bound)
  {
    if list != [] {
      LastSnoc(h, e, list[0].key);
      OtherUse(list[1..], h, LastUse(h, list[0].key), e);
    }
  }

  lemma Pushed(list: seq<Entry>, h: seq<Event>, e: Event, entry: Entry)
    requires ByRecency(list, h, |h|) && e.key !in KeysOf(list) && entry.key == e.key
    ensures ByRecency([entry] + list, h + [e], |h| + 1) && KeysOf([entry] + list) == KeysOf(list) + {e.key}
  {
    OtherUse(list, h, |h|, e);
    LastSnoc(h, e, e.key);
    assert ([entry] + list)[1..] == list;
  }

  /** The last entry is the least recently used, and dropping it drops exactly its key. */
  lemma {:induction false} DropLast(list: seq<Entry>, h: seq<Event>, bound: int)
    requires ByRecency(list, h, bound) && list != []
    ensures var front, last := list[..|list| - 1], list[|list| - 1].key;
            && ByRecency(front, h, bound) && KeysOf(front) == KeysOf(list) - {last} && last in KeysOf(list)
            && forall k :: k in KeysOf(front) ==> LastUse(h, k) > LastUse(h, last)
  {
    var front, last, u := list[..|list| - 1], list[|list| - 1].key, LastUse(h, list[0].key);
    if |list| > 1 {
      DropLast(list[1..], h, u);
      assert front[1..] == list[1..][..|list| - 2] && front[0] == list[0];
      BelowBound(list[1..], h, u, last);
      if list[0].key in KeysOf(list[1..]) { BelowBound(list[1..], h, u, list[0].key); }
    }
  }

  lemma {:induction false} DistinctKeys(list: seq<Entry>, h: seq<Event>, bound: int)
    requires ByRecency(list, h, bound)
    ensures |KeysOf(list)| == |list|
  {
    if list != [] {
      DistinctKeys(list[1..], h, LastUse(h, list[0].key));
      if list[0].key in KeysOf(list[1..]) { BelowBound(list[1..], h, LastUse(h, list[0].key), list[0].key); }
    }
  }

  // ---------------------------------------------------------------- backing, step by step

  lemma BackedSnoc(entry: Entry, ttl: int, h: seq<Event>, e: Event)
    requires Backed(entry, ttl, h) && !(e.Answered? && e.key == entry.key)
    ensures Backed(entry, ttl, h + [e])
  {
    LastSnoc(h, e, entry.key);
  }

  lemma {:induction false} AllBackedSnoc(list: seq<Entry>, ttl: int, h: seq<Event>, e: Event)
    requires AllBacked(list, ttl, h) && (e.Answered? ==> e.key !in KeysOf(list))
    ensures AllBacked(list, ttl, h + [e])
  {
    if list != [] {
      BackedSnoc(list[0], ttl, h, e);
      AllBackedSnoc(list[1..], ttl, h, e);
    }
  }

  lemma {:induction false} BackedEntry(list: seq<Entry>, ttl: int, h: seq<Event>, key: Key)
    requires AllBacked(list, ttl, h) && Get(list, key).Some?
    ensures Backed(Get(list, key).value, ttl, h)
  {
    if list[0].key != key { BackedEntry(list[1..], ttl, h, key); }
  }

  lemma {:induction false} BackedWithout(list: seq<Entry>, ttl: int, h: seq<Event>, key: Key)
    requires AllBacked(list, ttl, h)
    ensures AllBacked(Without(list, key), ttl, h)
  {
    if list != [] && list[0].key != key {
      BackedWithout(list[1..], ttl, h, key);
      assert Without(list, key)[1..] == Without(list[1..], key);
    }
  }

  lemma {:induction false} BackedFront(list: seq<Entry>, ttl: int, h: seq<Event>)
    requires AllBacked(list, ttl, h) && list != []
    ensures AllBacked(list[..|list| - 1], ttl, h)
  {
    if |list| > 1 {
      BackedFront(list[1..], ttl, h);
      assert list[..|list| - 1][1..] == list[1..][..|list| - 2];
    }
  }

  // ---------------------------------------------------------------- every history

  ghost predicate Good(size: nat, ttl: int, list: seq<Entry>, h: seq<Event>) {
    |list| <= size && ByRecency(list, h, |h|) && AllBacked(list, ttl, h)
  }

  lemma StepKeepsRecency(size: nat, ttl: int, list: seq<Entry>, h: seq<Event>, e: Event)
    requires |list| <= size && ByRecency(list, h, |h|)
    ensures |Step(size, ttl, list, e)| <= size && ByRecency(Step(size, ttl, list, e), h + [e], |h| + 1)
  {
    GetFinds(list, e.key);
    WithoutKeeps(list, h, |h|, e.key);
    var found := Get(list, e.key);
    var rest := Without(list, e.key);
    if e.Answered? {
      var entry := Entry(e.key, e.active, e.now + ttl);
      if found.Some? {
        Pushed(rest, h, e, entry);
      } else {
        Pushed(list, h, e, entry);
        DropLast([entry] + list, h + [e], |h| + 1);
      }
    } else if found.None? {
      OtherUse(list, h, |h|, e);
      Widen(list, h + [e], |h|, |h| + 1);
    } else if e.now > found.value.expires {
      OtherUse(rest, h, |h|, e);
      Widen(rest, h + [e], |h|, |h| + 1);
    } else {
      Pushed(rest, h, e, found.value);
    }
  }

  lemma StepKeepsBacking(size: nat, ttl: int, list: seq<Entry>, h: seq<Event>, e: Event)
    requires ByRecency(list, h, |h|) && AllBacked(list, ttl, h)
    ensures AllBacked(Step(size, ttl, list, e), ttl, h + [e])
  {
    GetFinds(list, e.key);
    WithoutKeeps(list, h, |h|, e.key);
    BackedWithout(list, ttl, h, e.key);
    var found := Get(list, e.key);
    var rest := Without(list, e.key);
    AllBackedSnoc(rest, ttl, h, e);
    if e.Answered? {
      LastSnoc(h, e, e.key);
      var entry := Entry(e.key, e.active, e.now + ttl);
      assert ([entry] + rest)[1..] == rest && ([entry] + list)[1..] == list;
      if found.None? {
        AllBackedSnoc(list, ttl, h, e);
        BackedFront([entry] + list, ttl, h + [e]);
      }
    } else if found.None? {
      AllBackedSnoc(list, ttl, h, e);
    } else {
      BackedEntry(list, ttl, h, e.key);
      BackedSnoc(found.value, ttl, h, e);
      assert ([found.value] + rest)[1..] == rest;
    }
  }

  /** After every history: bounded size, recency order, entries backed by the latest answers. */
  lemma {:induction false} RunIsGood(size: nat, ttl: int, h: seq<Event>)
    ensures Good(size, ttl, Run(size, ttl, h), h)
  {
    if h != [] {
      var front, e := h[..|h| - 1], h[|h| - 1];
      RunIsGood(size, ttl, front);
      assert h == front + [e];
      StepKeepsRecency(size, ttl, Run(size, ttl, front), front, e);
      StepKeepsBacking(size, ttl, Run(size, ttl, front), front, e);
    }
  }

  /** A hit is the contract's latest answer for that very key, given at most one time-to-live ago. */
  lemma HitIsRecentAnswer(size: nat, ttl: int, h: seq<Event>, key: Key, now: int) returns (i: nat)
    requires Answer(Run(size, ttl, h), key, now).Some?
    ensures i < |h| && h[i].Answered? && h[i].key == key && now - h[i].now <= ttl
    ensures Answer(Run(size, ttl, h), key, now) == Some(h[i].active)
    ensures forall j :: i < j < |h| ==> !(h[j].Answered? && h[j].key == key)
  {
    RunIsGood(size, ttl, h);
    BackedEntry(Run(size, ttl, h), ttl, h, key);
    LastAnswerIsLast(h, key);
    i := LastAnswer(h, key);
  }

  /**
   * A lookup is answered from the cache exactly if the key is in it and its latest answer is not older than the
   * time-to-live; that answer is the one given.
   */
  lemma HitExactlyIf(size: nat, ttl: int, h: seq<Event>, key: Key, now: int)
    ensures var i, list := LastAnswer(h, key), Run(size, ttl, h);
            && (Answer(list, key, now).Some? <==> key in KeysOf(list) && 0 <= i < |h| && now - h[i].now <= ttl)
            && (Answer(list, key, now).Some? ==>
                  0 <= i < |h| && h[i].Answered? && Answer(list, key, now) == Some(h[i].active))
  {
    RunIsGood(size, ttl, h);
    GetFinds(Run(size, ttl, h), key);
    if Get(Run(size, ttl, h), key).Some? { BackedEntry(Run(size, ttl, h), ttl, h, key); }
  }

  function Mentioned(h: seq<Event>): (s: set<Key>) { set i | 0 <= i < |h| :: h[i].key }

  /** What a step does to the keys: only a lookup that finds it expired, or an eviction, takes one out. */
  lemma StepKeys(size: nat, ttl: int, list: seq<Entry>, h: seq<Event>, e: Event, key: Key)
    requires |list| <= size && ByRecency(list, h, |h|) && key in KeysOf(list) && e.key != key
    ensures || key in KeysOf(Step(size, ttl, list, e))
            || (e.Answered? && e.key !in KeysOf(list) && |list| == size && list[|list| - 1].key == key)
  {
    GetFinds(list, e.key);
    WithoutKeeps(list, h, |h|, e.key);
    var rest, found := Without(list, e.key), Get(list, e.key);
    if e.Answered? {
      var entry := Entry(e.key, e.active, e.now + ttl);
      assert ([entry] + rest)[1..] == rest && ([entry] + list)[1..] == list;
      if found.None? {
        Pushed(list, h, e, entry);
        DropLast([entry] + list, h + [e], |h| + 1);
      }
    } else if found.Some? {
      assert ([found.value] + rest)[1..] == rest;
    }
  }

  /** An eviction happens only in a full cache, and takes the key whose last use is the oldest of all. */
  lemma EvictsLeastRecent(size: nat, ttl: int, h: seq<Event>, e: Event, key: Key)
    requires e.key != key && key in KeysOf(Run(size, ttl, h))
    requires key !in KeysOf(Step(size, ttl, Run(size, ttl, h), e))
    ensures var list := Run(size, ttl, h);
            && e.Answered? && e.key !in KeysOf(list) && |KeysOf(list)| == |list| == size
            && forall k :: k in KeysOf(list) && k != key ==> LastUse(h, k) > LastUse(h, key)
  {
    RunIsGood(size, ttl, h);
    var list := Run(size, ttl, h);
    StepKeys(size, ttl, list, h, e, key);
    DropLast(list, h, |h|);
    DistinctKeys(list, h, |h|);
  }

  /** When `key` is evicted, as many other keys as the cache holds have been used since its last use. */
  lemma EvictionCrowd(size: nat, ttl: int, h: seq<Event>, from: nat, e: Event, key: Key)
    requires from <= |h| && LastUse(h, key) == from - 1 && e.key != key
    requires key in KeysOf(Run(size, ttl, h)) && key !in KeysOf(Step(size, ttl, Run(size, ttl, h), e))
    ensures |Mentioned(h[from..] + [e])| >= size
  {
    var list := Run(size, ttl, h);
    EvictsLeastRecent(size, ttl, h, e, key);
    var others := KeysOf(list) - {key} + {e.key};
    var later := h[from..] + [e];
    forall k | k in others ensures k in Mentioned(later) {
      LastUseIsLast(h, k);
      var at := if k == e.key then |later| - 1 else LastUse(h, k) - from;
      assert later[at].key == k;
    }
    SubsetSize(others, Mentioned(later));
  }

  lemma {:induction false} UseBefore(h: seq<Event>, more: seq<Event>, key: Key)
    requires key !in Mentioned(more)
    ensures LastUse(h + more, key) == LastUse(h, key)
  {
    if more == [] {
      assert h + more == h;
    } else {
      var front, e := more[..|more| - 1], more[|more| - 1];
      MentionedSnoc(front, e);
      assert more == front + [e] && h + more == (h + front) + [e];
      UseBefore(h, front, key);
      LastSnoc(h + front, e, key);
    }
  }

  lemma MentionedSnoc(h: seq<Event>, e: Event)
    ensures Mentioned(h + [e]) == Mentioned(h) + {e.key}
  {
    var all := h + [e];
    forall k | k in Mentioned(h) + {e.key} ensures k in Mentioned(all) {
      if k == e.key {
        assert all[|h|].key == k;
      } else {
        var i :| 0 <= i < |h| && h[i].key == k;
        assert all[i].key == k;
      }
    }
  }

  lemma RunSnoc(size: nat, ttl: int, h: seq<Event>, e: Event)
    ensures Run(size, ttl, h + [e]) == Step(size, ttl, Run(size, ttl, h), e)
  {
    assert (h + [e])[..|h|] == h;
  }

  lemma KeptOneMore(size: nat, ttl: int, h: seq<Event>, front: seq<Event>, e: Event, key: Key)
    requires LastUse(h, key) == |h| - 1 && key !in Mentioned(front) && e.key != key
    requires key in KeysOf(Run(size, ttl, h + front))
    ensures key in KeysOf(Step(size, ttl, Run(size, ttl, h + front), e)) || |Mentioned(front + [e])| >= size
  {
    if key !in KeysOf(Step(size, ttl, Run(size, ttl, h + front), e)) {
      UseBefore(h, front, key);
      EvictionCrowd(size, ttl, h + front, |h|, e, key);
      assert (h + front)[|h|..] == front;
    }
  }

  /**
   * The least-recently-used promise: a key that was in the cache stays until it is mentioned again or until as
   * many distinct other keys as the cache can hold have been mentioned.
   */
  lemma {:induction false} KeptUntilCrowdedOut(size: nat, ttl: int, h: seq<Event>, more: seq<Event>, key: Key)
    requires key in KeysOf(Run(size, ttl, h)) && LastUse(h, key) == |h| - 1 && key !in Mentioned(more)
    ensures key in KeysOf(Run(size, ttl, h + more)) || |Mentioned(more)| >= size
    decreases |more|
  {
    if more == [] {
      assert h + more == h;
    } else {
      var front, e := more[..|more| - 1], more[|more| - 1];
      assert more == front + [e] && h + more == (h + front) + [e];
      MentionedSnoc(front, e);
      KeptUntilCrowdedOut(size, ttl, h, front, key);
      SubsetSize(Mentioned(front), Mentioned(more));
      RunSnoc(size, ttl, h + front, e);
      if key in KeysOf(Run(size, ttl, h + front)) { KeptOneMore(size, ttl, h, front, e, key); }
    }
  }

  // ---------------------------------------------------------------- the map and the list

  class CacheEntry {
    const key: Key
    var isActive: bool
    var expires: int

    constructor (key: Key, isActive: bool, expires: int)
      ensures this.key == key && this.isActive == isActive && this.expires == expires
    {
      this.key, this.isActive, this.expires := key, isActive, expires;
    }
  }

  function Unlinked(order: seq<CacheEntry>, e: CacheEntry): (rest: seq<CacheEntry>) {
    if order == [] then []
    else if order[0] == e then order[1..]
    else [order[0]] + Unlinked(order[1..], e)
  }

  ghost function Values(entries: seq<CacheEntry>): (list: seq<Entry>)
    reads entries
  {
    if entries == [] then []
    else [Entry(entries[0].key, entries[0].isActive, entries[0].expires)] + Values(entries[1..])
  }

  ghost predicate Distinct(order: seq<CacheEntry>) {
    order == [] || (order[0] !in order[1..] && Distinct(order[1..]))
  }

  /** The map finds exactly the list's elements, each under its own key. */
  ghost predicate Indexed(cache: map<Key, CacheEntry>, order: seq<CacheEntry>) {
    && (forall e :: e in order ==> e.key in cache && cache[e.key] == e)
    && (forall k :: k in cache ==> cache[k] in order && cache[k].key == k)
    && Distinct(order)
  }

  lemma {:induction false} UnlinkedElements(order: seq<CacheEntry>, e: CacheEntry)
    requires Distinct(order)
    ensures Distinct(Unlinked(order, e))
    ensures forall i :: 0 <= i < |Unlinked(order, e)| ==> Unlinked(order, e)[i] in order && Unlinked(order, e)[i] != e
    ensures forall i :: 0 <= i < |order| && order[i] != e ==> order[i] in Unlinked(order, e)
  {
    if order != [] && order[0] != e {
      UnlinkedElements(order[1..], e);
      assert Unlinked(order, e)[1..] == Unlinked(order[1..], e);
    }
  }

  /** Unlinking an element takes its key out of the list of values. */
  lemma {:induction false} UnlinkedValues(order: seq<CacheEntry>, e: CacheEntry)
    requires forall x :: x in order && x.key == e.key ==> x == e
    ensures Values(Unlinked(order, e)) == Without(Values(order), e.key)
  {
    if order != [] {
      assert order[0] in order;
      assert Values(order)[1..] == Values(order[1..]);
      if order[0] != e {
        UnlinkedValues(order[1..], e);
        assert Unlinked(order, e)[1..] == Unlinked(order[1..], e);
      }
    }
  }

  lemma {:induction false} GetValue(order: seq<CacheEntry>, key: Key)
    ensures (exists x :: x in order && x.key == key) <==> Get(Values(order), key).Some?
    ensures forall e :: e in order && e.key == key && (forall x :: x in order && x.key == key ==> x == e) ==>
              Get(Values(order), key) == Some(Entry(key, e.isActive, e.expires))
  {
    if order != [] {
      assert Values(order)[1..] == Values(order[1..]);
      GetValue(order[1..], key);
      assert forall x :: x in order <==> x == order[0] || x in order[1..];
    }
  }

  lemma {:induction false} ValuesLength(order: seq<CacheEntry>)
    ensures |Values(order)| == |order|
  {
    if order != [] { ValuesLength(order[1..]); }
  }

  lemma {:induction false} ValuesFront(order: seq<CacheEntry>)
    requires order != []
    ensures |Values(order)| == |order| && Values(order[..|order| - 1]) == Values(order)[..|order| - 1]
  {
    ValuesLength(order);
    if |order| > 1 {
      ValuesFront(order[1..]);
      assert order[..|order| - 1][1..] == order[1..][..|order| - 2];
    }
  }

  lemma PushedValues(order: seq<CacheEntry>, e: CacheEntry)
    ensures Values([e] + order) == [Entry(e.key, e.isActive, e.expires)] + Values(order)
  {
    assert ([e] + order)[1..] == order;
  }

  lemma PushedIndexed(cache: map<Key, CacheEntry>, order: seq<CacheEntry>, e: CacheEntry)
    requires Indexed(cache, order) && e.key !in cache
    ensures Indexed(cache[e.key := e], [e] + order)
  {
    assert ([e] + order)[1..] == order;
    assert e !in order;
  }

  lemma UnlinkedIndexed(cache: map<Key, CacheEntry>, order: seq<CacheEntry>, e: CacheEntry)
    requires Indexed(cache, order) && e in order
    ensures Indexed(cache - {e.key}, Unlinked(order, e))
    ensures forall i :: 0 <= i < |Unlinked(order, e)| ==> Unlinked(order, e)[i] in order && Unlinked(order, e)[i] != e
  {
    UnlinkedElements(order, e);
  }

  lemma RelinkedIndexed(cache: map<Key, CacheEntry>, order: seq<CacheEntry>, e: CacheEntry)
    requires Indexed(cache, order) && e in order
    ensures Indexed(cache, [e] + Unlinked(order, e))
  {
    UnlinkedIndexed(cache, order, e);
    PushedIndexed(cache - {e.key}, Unlinked(order, e), e);
    assert (cache - {e.key})[e.key := e] == cache;
  }

  /** Looking a key up in the map is looking it up in the list of values. */
  lemma CachedValue(cache: map<Key, CacheEntry>, order: seq<CacheEntry>, key: Key)
    requires Indexed(cache, order)
    ensures key !in cache ==> Get(Values(order), key) == None
    ensures key in cache ==> cache[key] in order && cache[key].key == key
    ensures key in cache ==>
              && Get(Values(order), key) == Some(Entry(key, cache[key].isActive, cache[key].expires))
              && Values(Unlinked(order, cache[key])) == Without(Values(order), key)
  {
    GetValue(order, key);
    if key in cache { UnlinkedValues(order, cache[key]); }
  }

  lemma {:induction false} UnlinkedLast(order: seq<CacheEntry>)
    requires Distinct(order) && order != []
    ensures Unlinked(order, order[|order| - 1]) == order[..|order| - 1]
  {
    if |order| > 1 {
      UnlinkedLast(order[1..]);
      assert order[|order| - 1] == order[1..][|order| - 2];
      assert order[..|order| - 1] == [order[0]] + order[1..][..|order| - 2];
    }
  }

  /** The map and the list hold the same keys, never more than the cache may hold. */
  lemma MapMatchesList(cache: map<Key, CacheEntry>, order: seq<CacheEntry>, size: nat, ttl: int, h: seq<Event>)
    requires Indexed(cache, order) && Values(order) == Run(size, ttl, h)
    ensures cache.Keys == KeysOf(Values(order)) && |cache| == |order| <= size
  {
    RunIsGood(size, ttl, h);
    DistinctKeys(Values(order), h, |h|);
    ValuesLength(order);
    forall k ensures k in cache <==> k in KeysOf(Values(order)) {
      CachedValue(cache, order, k);
      GetFinds(Values(order), k);
    }
    assert cache.Keys == KeysOf(Values(order)) && |cache| == |cache.Keys|;
  }

  /** Removing a list element with its map entry is removing the key from the list of values. */
  lemma ExpiredStep(cache: map<Key, CacheEntry>, order: seq<CacheEntry>, size: nat, ttl: int, key: Key, now: int)
    requires Indexed(cache, order) && key in cache && now > cache[key].expires
    ensures Indexed(cache - {key}, Unlinked(order, cache[key]))
    ensures Values(Unlinked(order, cache[key])) == Step(size, ttl, Values(order), Lookup(key, now))
    ensures Answer(Values(order), key, now) == None
  {
    CachedValue(cache, order, key);
    UnlinkedIndexed(cache, order, cache[key]);
  }

  lemma HitStep(cache: map<Key, CacheEntry>, order: seq<CacheEntry>, size: nat, ttl: int, key: Key, now: int)
    requires Indexed(cache, order) && key in cache && now <= cache[key].expires
    ensures Indexed(cache, [cache[key]] + Unlinked(order, cache[key]))
    ensures Values([cache[key]] + Unlinked(order, cache[key])) == Step(size, ttl, Values(order), Lookup(key, now))
    ensures Answer(Values(order), key, now) == Some(cache[key].isActive)
  {
    CachedValue(cache, order, key);
    RelinkedIndexed(cache, order, cache[key]);
    PushedValues(Unlinked(order, cache[key]), cache[key]);
  }

  /** A new element in front, for a key the map does not have. */
  lemma NewStep(cache: map<Key, CacheEntry>, order: seq<CacheEntry>, size: nat, ttl: int, e: CacheEntry, now: int)
    requires Indexed(cache, order) && e.key !in cache && e.expires == now + ttl
    ensures Indexed(cache[e.key := e], [e] + order)
    ensures Step(size, ttl, Values(order), Answered(e.key, e.isActive, now)) == Evicted(Values([e] + order), size)
  {
    CachedValue(cache, order, e.key);
    PushedIndexed(cache, order, e);
    PushedValues(order, e);
  }

  lemma EvictStep(cache: map<Key, CacheEntry>, order: seq<CacheEntry>, size: nat)
    requires Indexed(cache, order) && order != []
    ensures var last := order[|order| - 1];
            Unlinked(order, last) == order[..|order| - 1] && Indexed(cache - {last.key}, Unlinked(order, last))
    ensures Evicted(Values(order), size) == if |order| > size then Values(order[..|order| - 1]) else Values(order)
  {
    UnlinkedLast(order);
    UnlinkedIndexed(cache, order, order[|order| - 1]);
    ValuesFront(order);
  }

  datatype Verdict = Verdict(active: bool) | MissingAddress | CallFailed

  class Verifier {
    const cacheSize: nat
    const cacheTtl: int
    const fallback: bool
    var cache: map<Key, CacheEntry>
    var order: seq<CacheEntry>
    ghost var history: seq<Event>

    ghost predicate Valid()
      reads this, order
    {
      Indexed(cache, order) && Values(order) == Run(cacheSize, cacheTtl, history)
    }

    constructor (cacheSize: nat, cacheTtl: int, fallback: bool)
      ensures Valid() && history == [] && this.cacheSize == cacheSize && this.cacheTtl == cacheTtl && this.fallback == fallback
    {
      this.cacheSize, this.cacheTtl, this.fallback := cacheSize, cacheTtl, fallback;
      cache, order, history := map[], [], [];
    }

    /** `tryCache`: an expired entry is removed, a good one moves to the front. */
    method TryCache(key: Key, now: int) returns (r: Option<bool>)
      requires Valid()
      modifies this
      ensures Valid() && history == old(history) + [Lookup(key, now)]
      ensures forall i :: 0 <= i < |order| ==> order[i] in old(order)
      ensures r == Answer(Run(cacheSize, cacheTtl, old(history)), key, now)
    {
      r := TryList(key, now);
      RunSnoc(cacheSize, cacheTtl, history, Lookup(key, now));
      history := history + [Lookup(key, now)];
    }

    method TryList(key: Key, now: int) returns (r: Option<bool>)
      requires Indexed(cache, order)
      modifies this`order, this`cache
      ensures Indexed(cache, order) && forall i :: 0 <= i < |order| ==> order[i] in old(order)
      ensures Values(order) == Step(cacheSize, cacheTtl, old(Values(order)), Lookup(key, now))
      ensures r == Answer(old(Values(order)), key, now)
    {
      if key !in cache {
        CachedValue(cache, order, key);
        return None;
      }
      var element := cache[key];
      UnlinkedElements(order, element);
      if now > element.expires {
        ExpiredStep(cache, order, cacheSize, cacheTtl, key, now);
        RemoveElement(element);
        return None;
      }
      HitStep(cache, order, cacheSize, cacheTtl, key, now);
      MoveToFront(element);
      return Some(element.isActive);
    }

    /** `removeElement`: out of the list and out of the map. */
    method RemoveElement(element: CacheEntry)
      modifies this`order, this`cache
      ensures order == Unlinked(old(order), element) && cache == old(cache) - {element.key}
    {
      order := Unlinked(order, element);
      cache := cache - {element.key};
    }

    method MoveToFront(element: CacheEntry)
      modifies this`order
      ensures order == [element] + Unlinked(old(order), element)
    {
      order := [element] + Unlinked(order, element);
    }

    /** `updateCache`. */
    method UpdateCache(key: Key, active: bool, now: int)
      requires Valid()
      modifies this, order
      ensures Valid() && history == old(history) + [Answered(key, active, now)]
      ensures forall i :: 0 <= i < |order| ==> order[i] in old(order) || fresh(order[i])
    {
      RunSnoc(cacheSize, cacheTtl, history, Answered(key, active, now));
      if key in cache {
        Refresh(key, active, now);
      } else {
        PushNew(key, active, now);
      }
      history := history + [Answered(key, active, now)];
    }

    method Refresh(key: Key, active: bool, now: int)
      requires Indexed(cache, order) && key in cache
      modifies this`order, order
      ensures Indexed(cache, order) && forall i :: 0 <= i < |order| ==> order[i] in old(order)
      ensures Values(order) == Step(cacheSize, cacheTtl, old(Values(order)), Answered(key, active, now))
    {
      var element := cache[key];
      CachedValue(cache, order, key);
      UnlinkedElements(order, element);
      RelinkedIndexed(cache, order, element);
      ghost var rest := Unlinked(order, element);
      ghost var others := Values(rest);
      SetEntry(element, active, now + cacheTtl, rest);
      assert Values(rest) == others;
      PushedValues(rest, element);
      MoveToFront(element);
    }

    method SetEntry(element: CacheEntry, active: bool, expires: int, ghost rest: seq<CacheEntry>)
      requires forall i :: 0 <= i < |rest| ==> rest[i] != element
      modifies element
      ensures element.isActive == active && element.expires == expires && Values(rest) == old(Values(rest))
    {
      element.isActive := active;
      element.expires := expires;
    }

    method PushNew(key: Key, active: bool, now: int)
      requires Indexed(cache, order) && key !in cache
      modifies this`order, this`cache
      ensures Indexed(cache, order) && forall i :: 0 <= i < |order| ==> order[i] in old(order) || fresh(order[i])
      ensures Values(order) == Step(cacheSize, cacheTtl, old(Values(order)), Answered(key, active, now))
    {
      var element := new CacheEntry(key, active, now + cacheTtl);
      NewStep(cache, order, cacheSize, cacheTtl, element, now);
      order := [element] + order;
      cache := cache[key := element];
      EvictIfFull();
    }

    method EvictIfFull()
      requires Indexed(cache, order) && order != []
      modifies this`order, this`cache
      ensures Indexed(cache, order) && order <= old(order)
      ensures Values(order) == Evicted(old(Values(order)), cacheSize)
    {
      EvictStep(cache, order, cacheSize);
      if |order| > cacheSize {
        EvictOldest();
      }
    }

    /** `evictOldest`. */
    method EvictOldest()
      modifies this`order, this`cache
      ensures old(order) == [] ==> order == [] && cache == old(cache)
      ensures old(order) != [] ==>
                var last := old(order)[|old(order)| - 1];
                order == Unlinked(old(order), last) && cache == old(cache) - {last.key}
    {
      if order == [] { return; }
      RemoveElement(order[|order| - 1]);
    }

    /**
     * `verify`: `key` is the cache key of a well-formed address, `reply` what the contract says if it is asked.
     * Only the contract's own answers enter the cache; the fallback's do not.
     */
    method Verify(key: Option<Key>, now: int, reply: Option<bool>) returns (r: Verdict)
      requires Valid()
      modifies this, order
      ensures Valid() && forall i :: 0 <= i < |order| ==> order[i] in old(order) || fresh(order[i])
      ensures key.None? ==> history == old(history) && r == if fallback then Verdict(true) else MissingAddress
      ensures key.Some? ==>
                var cached := Answer(Run(cacheSize, cacheTtl, old(history)), key.value, now);
                var looked := old(history) + [Lookup(key.value, now)];
                if cached.Some? then history == looked && r == Verdict(cached.value)
                else if reply.Some? then history == looked + [Answered(key.value, reply.value, now)] && r == Verdict(reply.value)
                else history == looked && r == if fallback then Verdict(true) else CallFailed
    {
      if key.None? {
        return if fallback then Verdict(true) else MissingAddress;
      }
      var hit := TryCache(key.value, now);
      if hit.Some? { return Verdict(hit.value); }
      if reply.None? {
        return if fallback then Verdict(true) else CallFailed;
      }
      UpdateCache(key.value, reply.value, now);
      return Verdict(reply.value);
    }
  }
}
