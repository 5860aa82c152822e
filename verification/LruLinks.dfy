/** The list operations of the page cache exactly as written, on addresses: when they keep the
    list in order of use intact and when they do not. */
module LruLinks {
  import opened Sequences

  /** Address of a page; 0 is the null pointer. */
  type Ptr = nat

  /** The two ends of the list and the link fields of every page. */
  datatype Links = Links(head: Ptr, tail: Ptr, next: map<Ptr, Ptr>, prev: map<Ptr, Ptr>)

  function At(s: seq<Ptr>, i: int): Ptr {
    if 0 <= i < |s| then s[i] else 0
  }

  /** The links describe the list s, most recently used page first. */
  ghost predicate IsList(l: Links, s: seq<Ptr>) {
    && 0 !in s
    && NoRepeats(s)
    && l.head == At(s, 0) && l.tail == At(s, |s| - 1)
    && (forall i :: 0 <= i < |s| ==> LinkedAt(l, s, i))
  }

  /** The page at position i points at its neighbours. */
  ghost predicate LinkedAt(l: Links, s: seq<Ptr>, i: nat)
    requires i < |s|
  {
    Field(l.next, s[i]) == At(s, i + 1) && Field(l.prev, s[i]) == At(s, i - 1)
  }

  /** A link field of a page; fields start out null. */
  function Field(links: map<Ptr, Ptr>, p: Ptr): Ptr {
    if p in links then links[p] else 0
  }

  /** lru_remove: relinks the neighbours, clears the page's links, leaves both ends alone. */
  function Remove(l: Links, p: Ptr): Links {
    var before := Field(l.prev, p);
    var next := if before != 0 then l.next[before := Field(l.next, p)] else l.next;
    var after := Field(next, p);
    var prev := if after != 0 then l.prev[after := Field(l.prev, p)] else l.prev;
    l.(next := next[p := 0], prev := prev[p := 0])
  }

  /** lru_add_front. */
  function AddFront(l: Links, p: Ptr): Links {
    var next, prev := l.next[p := l.head], l.prev[p := 0];
    Links(p, if l.tail == 0 then p else l.tail, next, if l.head != 0 then prev[l.head := p] else prev)
  }

  /** lru_mru: what every cache hit does. */
  function MoveToFront(l: Links, p: Ptr): Links {
    AddFront(Remove(l, p), p)
  }

  /** A page not yet in the list is added correctly, whatever the list. */
  lemma AddFrontKeepsList(l: Links, s: seq<Ptr>, p: Ptr)
    requires IsList(l, s) && p !in s && p != 0
    ensures IsList(AddFront(l, p), [p] + s)
  {
    var m, r := AddFront(l, p), [p] + s;
    forall i | 0 <= i < |r|
      ensures LinkedAt(m, r, i)
    {
      if i > 0 {
        assert r[i] == s[i - 1];
        assert LinkedAt(l, s, i - 1);
      }
    }
  }

  lemma Neighbours(s: seq<Ptr>, k: nat, i: nat)
    requires 0 < k < |s| - 1 && i < |s| - 1
    ensures var r, j := RemoveAt(s, k), if i < k then i else i + 1;
      && r[i] == s[j] && j != k
      && At(r, i + 1) == (if j == k - 1 then s[k + 1] else At(s, j + 1))
      && At(r, i - 1) == (if j == k + 1 then s[k - 1] else At(s, j - 1))
  {
  }

  lemma RemoveInterior(l: Links, s: seq<Ptr>, k: nat)
    requires IsList(l, s) && 0 < k < |s| - 1
    ensures IsList(Remove(l, s[k]), RemoveAt(s, k)) && s[k] !in RemoveAt(s, k)
  {
    assert LinkedAt(l, s, k);
    var m, r := Remove(l, s[k]), RemoveAt(s, k);
    forall i | 0 <= i < |r|
      ensures LinkedAt(m, r, i)
    {
      Neighbours(s, k, i);
      assert LinkedAt(l, s, if i < k then i else i + 1);
    }
  }

  /** Removing a page leaves the list of the others exactly when the page is at neither end. */
  lemma RemoveIff(l: Links, s: seq<Ptr>, k: nat)
    requires IsList(l, s) && k < |s|
    ensures IsList(Remove(l, s[k]), RemoveAt(s, k)) <==> s[k] != l.head && s[k] != l.tail
    ensures var m := Remove(l, s[k]); m.head == l.head && m.tail == l.tail && m.next[s[k]] == 0 && m.prev[s[k]] == 0
  {
    assert LinkedAt(l, s, k);
    if 0 < k < |s| - 1 {
      RemoveInterior(l, s, k);
    } else {
      var r := RemoveAt(s, k);
      assert r == [] || (r[0] != s[k] && r[|r| - 1] != s[k]);
    }
  }

  /** A cache hit moves its page to the front of the list exactly when the page is at neither end:
      a hit on the first page links it to itself, a hit on the last leaves the tail pointing at
      what is now the most recently used page. */
  lemma HitIff(l: Links, s: seq<Ptr>, k: nat)
    requires IsList(l, s) && k < |s|
    ensures IsList(MoveToFront(l, s[k]), [s[k]] + RemoveAt(s, k)) <==> s[k] != l.head && s[k] != l.tail
  {
    if 0 < k < |s| - 1 {
      RemoveInterior(l, s, k);
      AddFrontKeepsList(Remove(l, s[k]), RemoveAt(s, k), s[k]);
    } else {
      HitAtEndBreaks(l, s, k, [s[k]] + RemoveAt(s, k));
    }
  }

  /** A hit at either end leaves links that describe no list at all. */
  lemma HitAtEndBreaks(l: Links, s: seq<Ptr>, k: nat, t: seq<Ptr>)
    requires IsList(l, s) && k < |s| && (s[k] == l.head || s[k] == l.tail)
    ensures !IsList(MoveToFront(l, s[k]), t)
  {
    assert LinkedAt(l, s, k);
    NotAList(MoveToFront(l, s[k]), s[k], t);
  }

  // Either p follows itself, or p is both first and last and yet has a successor.
  lemma NotAList(m: Links, p: Ptr, t: seq<Ptr>)
    requires m.head == p && p != 0
    requires Field(m.next, p) == p || (m.tail == p && Field(m.next, p) != 0)
    ensures !IsList(m, t)
  {
    if t != [] {
      var first := LinkedAt(m, t, 0);
    }
  }

  /** Evicting the last page leaves the tail naming the page just freed, where the next search for
      a victim would start. */
  lemma EvictedTailDangles(l: Links, s: seq<Ptr>)
    requires IsList(l, s) && s != []
    ensures var p := s[|s| - 1]; Remove(l, p).tail == p && p !in RemoveAt(s, |s| - 1)
  {
  }

  /** Obtaining the only cached page a second time makes it its own successor. */
  lemma SecondHitSelfLinks(p: Ptr)
    requires p != 0
    ensures var l := AddFront(Links(0, 0, map[], map[]), p);
      IsList(l, [p]) && Field(MoveToFront(l, p).next, p) == p && Field(MoveToFront(l, p).prev, p) == p
  {
  }
}
