/**
 * The explicit free list of mm.c, seen abstractly: a sequence of payload
 * addresses threaded through the FREE_PREV and FREE_NEXT slots of the free
 * blocks, most recently freed first, ended by the prologue block.
 */
module FreeList {
  import opened Tags
  import opened Layout

  /** Payload address of the prologue block; it ends the list. */
  const PROLOGUE := 8

  /** Payload address of the first block extend_heap ever creates. */
  const FIRST := 48

  /** The members of a list as a set. */
  ghost function ListSet(fl: seq<int>): set<int>
  {
    set x | x in fl
  }

  /** Members lie past the prologue and far enough apart that their link slots never overlap. */
  ghost predicate Spaced(fl: seq<int>)
  {
    (forall k :: 0 <= k < |fl| ==> FIRST <= fl[k]) &&
    (forall j, k :: 0 <= j < k < |fl| ==> fl[j] + 2 * DSIZE <= fl[k] || fl[k] + 2 * DSIZE <= fl[j])
  }

  /** Each member's FREE_NEXT slot holds the next member, the prologue after the last. */
  ghost predicate NextLinks(m: Mem, fl: seq<int>)
  {
    forall k :: 0 <= k < |fl| ==> Get(m, FreeNext(fl[k])) == if k + 1 < |fl| then fl[k + 1] else PROLOGUE
  }

  /** Each member's FREE_PREV slot holds the previous member, NULL for the first. */
  ghost predicate PrevLinks(m: Mem, fl: seq<int>)
  {
    forall k :: 0 <= k < |fl| ==> Get(m, FreePrev(fl[k])) == if k == 0 then NULL else fl[k - 1]
  }

  /** fl is the list as memory threads it from head. */
  ghost predicate Linked(m: Mem, fl: seq<int>, head: int)
  {
    Spaced(fl) && head == (if fl == [] then PROLOGUE else fl[0]) &&
    NextLinks(m, fl) && PrevLinks(m, fl)
  }

  /** s with the members of S removed, order kept. */
  function Minus(s: seq<int>, S: set<int>): (r: seq<int>)
    ensures forall x {:trigger x in r} :: x in r <==> x in s && x !in S
    ensures |r| <= |s|
  {
    if s == [] then [] else (if s[0] in S then [] else [s[0]]) + Minus(s[1..], S)
  }

  /** No value occurs twice. */
  ghost predicate Distinct(s: seq<int>)
  {
    forall j, k :: 0 <= j < k < |s| ==> s[j] != s[k]
  }

  /** Removing the one occurrence of s[k] cuts it out of the sequence. */
  lemma {:induction false} MinusOne(s: seq<int>, k: int)
    requires Distinct(s) && 0 <= k < |s|
    ensures Minus(s, {s[k]}) == s[..k] + s[k + 1..]
    decreases |s|
  {
    if k == 0 {
      forall i | 0 <= i < |s| - 1 ensures s[1..][i] !in {s[0]} {
        assert s[1..][i] == s[i + 1];
      }
      MinusNone(s[1..], {s[0]});
      assert s[..0] + s[1..] == s[1..];
    } else {
      assert Distinct(s[1..]) && s[0] != s[k] by {
        forall j, i | 0 <= j < i < |s| - 1 ensures s[1..][j] != s[1..][i] {
          assert s[1..][j] == s[j + 1] && s[1..][i] == s[i + 1];
        }
      }
      MinusOne(s[1..], k - 1);
      MinusStep(s, k);
    }
  }

  /** The step of MinusOne: keeping the head in front of the tail's cut. */
  lemma MinusStep(s: seq<int>, k: int)
    requires 0 < k < |s| && s[0] != s[k]
    requires Minus(s[1..], {s[1..][k - 1]}) == s[1..][..k - 1] + s[1..][k..]
    ensures Minus(s, {s[k]}) == s[..k] + s[k + 1..]
  {
    var t := s[1..];
    assert t[k - 1] == s[k];
    assert Minus(s, {s[k]}) == [s[0]] + Minus(t, {s[k]});
    assert t[..k - 1] == s[1..k] && t[k..] == s[k + 1..];
    assert [s[0]] + s[1..k] == s[..k];
  }

  /** Removing values that do not occur changes nothing. */
  lemma {:induction false} MinusNone(s: seq<int>, S: set<int>)
    requires forall k :: 0 <= k < |s| ==> s[k] !in S
    ensures Minus(s, S) == s
    decreases |s|
  {
    if s != [] {
      MinusNone(s[1..], S);
      assert Minus(s, S) == [s[0]] + Minus(s[1..], S);
      assert [s[0]] + s[1..] == s;
    }
  }
  /** Taking away a value the sequence does not hold changes nothing. */
  lemma MinusAbsent(s: seq<int>, x: int)
    requires x !in s
    ensures Minus(s, {x}) == s
  {
    forall k | 0 <= k < |s| ensures s[k] !in {x} {
      assert s[k] in s;
    }
    MinusNone(s, {x});
  }


  /** Two removals in a row remove the union. */
  lemma {:induction false} MinusMinus(s: seq<int>, A: set<int>, B: set<int>)
    ensures Minus(Minus(s, A), B) == Minus(s, A + B)
    decreases |s|
  {
    if s != [] {
      MinusMinus(s[1..], A, B);
      var t := Minus(s[1..], A);
      if s[0] !in A {
        assert Minus(s, A) == [s[0]] + t;
        assert ([s[0]] + t)[1..] == t;
      } else {
        assert Minus(s, A) == t;
      }
    }
  }

  /** Only which members of s are removed matters. */
  lemma {:induction false} MinusSame(s: seq<int>, A: set<int>, B: set<int>)
    requires forall k :: 0 <= k < |s| ==> (s[k] in A <==> s[k] in B)
    ensures Minus(s, A) == Minus(s, B)
    decreases |s|
  {
    if s != [] {
      MinusSame(s[1..], A, B);
      assert Minus(s, A) == (if s[0] in A then [] else [s[0]]) + Minus(s[1..], A);
      assert Minus(s, B) == (if s[0] in B then [] else [s[0]]) + Minus(s[1..], B);
    }
  }

  /** Members of a linked list are pairwise distinct. */
  lemma LinkedDistinct(m: Mem, fl: seq<int>, head: int)
    requires Linked(m, fl, head)
    ensures Distinct(fl)
  {
  }

  /** Memory changed only at link slots of S and at the prologue's payload. */
  ghost predicate OnlySlots(m: Mem, m': Mem, S: set<int>)
  {
    forall a :: Get(m', a) != Get(m, a) ==> a == PROLOGUE || a in S || a - DSIZE in S
  }

  /** Changes outside the slots of a list's members keep the list linked. */
  lemma LinkedKept(m: Mem, m': Mem, fl: seq<int>, head: int, lo: int, hi: int)
    requires Linked(m, fl, head)
    requires forall x :: x in fl ==> x + 2 * DSIZE <= lo || hi <= x
    requires forall a :: a < lo || hi <= a ==> Get(m', a) == Get(m, a)
    ensures Linked(m', fl, head)
  {
    forall k | 0 <= k < |fl| ensures Get(m', FreeNext(fl[k])) == Get(m, FreeNext(fl[k]))
      && Get(m', FreePrev(fl[k])) == Get(m, FreePrev(fl[k]))
    {
      assert fl[k] in fl;
    }
  }

  /** Two rounds of slot writes, the second within the first's members, are one. */
  lemma OnlySlotsTrans(m0: Mem, m1: Mem, m2: Mem, S: set<int>, S': set<int>)
    requires OnlySlots(m0, m1, S) && OnlySlots(m1, m2, S') && S' <= S
    ensures OnlySlots(m0, m2, S)
  {
    forall a | Get(m2, a) != Get(m0, a) ensures a == PROLOGUE || a in S || a - DSIZE in S {
      if Get(m1, a) != Get(m0, a) {
      } else {
        assert Get(m2, a) != Get(m1, a);
      }
    }
  }

  /** The members left once the members of S are removed. */
  lemma ListMinus(fl: seq<int>, S: set<int>)
    ensures ListSet(Minus(fl, S)) == ListSet(fl) - S
  {
  }

  /** Pushing x adds it to the members. */
  lemma ListCons(x: int, fl: seq<int>)
    ensures ListSet([x] + fl) == {x} + ListSet(fl)
  {
  }

  /** The member before fl[k], or NULL. */
  function Pred(fl: seq<int>, k: int): int
    requires 0 <= k < |fl|
  {
    if k == 0 then NULL else fl[k - 1]
  }

  /** The member after fl[k], or the prologue. */
  function Succ(fl: seq<int>, k: int): int
    requires 0 <= k < |fl|
  {
    if k + 1 < |fl| then fl[k + 1] else PROLOGUE
  }

  /** Where a linked list's k-th member points. */
  lemma LinkedAt(m: Mem, fl: seq<int>, head: int, k: int)
    requires Linked(m, fl, head) && 0 <= k < |fl|
    ensures Get(m, FreePrev(fl[k])) == Pred(fl, k)
    ensures Get(m, FreeNext(fl[k])) == Succ(fl, k)
  {
  }

  lemma PrevAt(m: Mem, fl: seq<int>, k: int)
    requires PrevLinks(m, fl) && 0 <= k < |fl|
    ensures Get(m, FreePrev(fl[k])) == Pred(fl, k)
  {
  }

  /** Dropping a member keeps the others spaced. */
  lemma SpacedRemove(fl: seq<int>, k: int)
    requires Spaced(fl) && 0 <= k < |fl|
    ensures Spaced(fl[..k] + fl[k + 1..])
  {
    var r := fl[..k] + fl[k + 1..];
    forall i, j | 0 <= i < j < |r| ensures r[i] + 2 * DSIZE <= r[j] || r[j] + 2 * DSIZE <= r[i] {
      var i', j' := if i < k then i else i + 1, if j < k then j else j + 1;
      assert r[i] == fl[i'] && r[j] == fl[j'] && i' < j';
    }
    assert forall j :: 0 <= j < |r| ==> r[j] == if j < k then fl[j] else fl[j + 1];
  }

  /** The writes of deleteblock, as the lemmas below take them. */
  ghost predicate UnlinkWrites(m: Mem, m1: Mem, m': Mem, fl: seq<int>, k: int)
    requires 0 <= k < |fl|
  {
    m1 == (if k == 0 then m else Put(m, FreeNext(fl[k - 1]), Succ(fl, k))) &&
    m' == Put(m1, FreePrev(Succ(fl, k)), Pred(fl, k))
  }

  lemma UnlinkNext(m: Mem, m1: Mem, m': Mem, fl: seq<int>, k: int)
    requires Spaced(fl) && NextLinks(m, fl) && 0 <= k < |fl|
    requires UnlinkWrites(m, m1, m', fl, k)
    ensures NextLinks(m', fl[..k] + fl[k + 1..])
  {
    var r := fl[..k] + fl[k + 1..];
    var succ := Succ(fl, k);
    forall j | 0 <= j < |r|
      ensures Get(m', FreeNext(r[j])) == if j + 1 < |r| then r[j + 1] else PROLOGUE
    {
      if j + 1 < k {
        assert r[j] == fl[j] && r[j + 1] == fl[j + 1];
        assert FreeNext(fl[j]) != FreeNext(fl[k - 1]) && FreeNext(fl[j]) != FreePrev(succ);
      } else if j + 1 == k {
        assert r[j] == fl[j];
        assert j + 1 < |r| ==> r[j + 1] == fl[k + 1];
        assert FreeNext(fl[j]) != FreePrev(succ);
      } else {
        assert r[j] == fl[j + 1];
        assert j + 1 < |r| ==> r[j + 1] == fl[j + 2];
        assert k > 0 ==> FreeNext(fl[j + 1]) != FreeNext(fl[k - 1]);
        assert FreeNext(fl[j + 1]) != FreePrev(succ);
        assert Get(m, FreeNext(fl[j + 1])) == Succ(fl, j + 1);
      }
    }
    assert NextLinks(m', r);
  }

  lemma UnlinkPrev(m: Mem, m1: Mem, m': Mem, fl: seq<int>, k: int)
    requires Spaced(fl) && PrevLinks(m, fl) && 0 <= k < |fl|
    requires UnlinkWrites(m, m1, m', fl, k)
    ensures PrevLinks(m', fl[..k] + fl[k + 1..])
  {
    var r := fl[..k] + fl[k + 1..];
    var succ := Succ(fl, k);
    forall j | 0 <= j < |r|
      ensures Get(m', FreePrev(r[j])) == if j == 0 then NULL else r[j - 1]
    {
      if j < k {
        assert r[j] == fl[j];
        assert j > 0 ==> r[j - 1] == fl[j - 1];
        assert k > 0 ==> FreePrev(fl[j]) != FreeNext(fl[k - 1]);
        assert FreePrev(fl[j]) != FreePrev(succ);
        PrevAt(m, fl, j);
      } else if j == k {
        assert r[j] == fl[k + 1] == succ;
        assert j > 0 ==> r[j - 1] == fl[k - 1];
      } else {
        assert r[j] == fl[j + 1] && r[j - 1] == fl[j];
        assert k > 0 ==> FreePrev(fl[j + 1]) != FreeNext(fl[k - 1]);
        assert FreePrev(fl[j + 1]) != FreePrev(succ);
        PrevAt(m, fl, j + 1);
      }
    }
    assert PrevLinks(m', r);
  }

  /**
   * Pointing fl[k]'s neighbours at each other, as deleteblock does (first
   * the predecessor's FREE_NEXT, unless fl[k] is the first member, then the
   * successor's FREE_PREV), takes fl[k] out of the list.
   */
  lemma Unlink(m: Mem, m1: Mem, m': Mem, fl: seq<int>, head: int, head': int, k: int)
    requires Linked(m, fl, head) && 0 <= k < |fl|
    requires head' == if k == 0 then Succ(fl, k) else head
    requires UnlinkWrites(m, m1, m', fl, k)
    ensures Linked(m', fl[..k] + fl[k + 1..], head')
    ensures OnlySlots(m, m', ListSet(fl))
  {
    SpacedRemove(fl, k);
    UnlinkNext(m, m1, m', fl, k);
    UnlinkPrev(m, m1, m', fl, k);
    var r := fl[..k] + fl[k + 1..];
    assert r != [] ==> r[0] == if k == 0 then fl[1] else fl[0];
    assert k + 1 < |fl| ==> Succ(fl, k) in ListSet(fl);
    assert k > 0 ==> fl[k - 1] in ListSet(fl);
  }

  /** deleteblock's writes: point previous and next, bp's neighbours in the list, at each other. */
  function Relink(m: Mem, previous: int, next: int): Mem
  {
    Put(if previous != NULL then Put(m, FreeNext(previous), next) else m, FreePrev(next), previous)
  }

  /** The memory after deleteblock(bp). */
  function Unlinked(m: Mem, bp: int): Mem
  {
    Relink(m, Get(m, FreePrev(bp)), Get(m, FreeNext(bp)))
  }

  /** freelist_head after deleteblock(bp): bp's successor when bp had no predecessor. */
  function UnlinkedHead(m: Mem, head: int, bp: int): int
  {
    if Get(m, FreePrev(bp)) != NULL then head else Get(m, FreeNext(bp))
  }

  /** The memory after insertblock(bp) on the list that starts at head. */
  function Pushed(m: Mem, head: int, bp: int): Mem
  {
    Put(Put(Put(m, FreeNext(bp), head), FreePrev(head), bp), FreePrev(bp), NULL)
  }

  /** deleteblock takes bp out of a linked list, writing only link slots of its members. */
  lemma DeleteLinked(m: Mem, fl: seq<int>, head: int, bp: int)
    requires Linked(m, fl, head) && bp in fl
    ensures Linked(Unlinked(m, bp), Minus(fl, {bp}), UnlinkedHead(m, head, bp))
    ensures OnlySlots(m, Unlinked(m, bp), ListSet(fl))
  {
    var k :| 0 <= k < |fl| && fl[k] == bp;
    LinkedAt(m, fl, head, k);
    LinkedDistinct(m, fl, head);
    MinusOne(fl, k);
    var m1 := if k == 0 then m else Put(m, FreeNext(fl[k - 1]), Succ(fl, k));
    assert UnlinkWrites(m, m1, Unlinked(m, bp), fl, k);
    Unlink(m, m1, Unlinked(m, bp), fl, head, UnlinkedHead(m, head, bp), k);
  }

  /** insertblock pushes bp on a linked list, writing only link slots. */
  lemma PushLinked(m: Mem, fl: seq<int>, head: int, bp: int)
    requires Linked(m, fl, head) && FIRST <= bp
    requires forall k :: 0 <= k < |fl| ==> bp + 2 * DSIZE <= fl[k] || fl[k] + 2 * DSIZE <= bp
    ensures Linked(Pushed(m, head, bp), [bp] + fl, bp)
    ensures OnlySlots(m, Pushed(m, head, bp), {bp} + ListSet(fl))
  {
    var m' := Pushed(m, head, bp);
    var r := [bp] + fl;
    forall k | 0 <= k < |r| ensures Get(m', FreeNext(r[k])) == Succ(r, k) && Get(m', FreePrev(r[k])) == Pred(r, k) {
      PushedAt(m, fl, head, bp, k);
    }
    PushSpaced(fl, bp);
    assert NextLinks(m', r) && PrevLinks(m', r);
    assert fl != [] ==> head in ListSet(fl);
  }

  lemma PushSpaced(fl: seq<int>, bp: int)
    requires Spaced(fl) && FIRST <= bp
    requires forall k :: 0 <= k < |fl| ==> bp + 2 * DSIZE <= fl[k] || fl[k] + 2 * DSIZE <= bp
    ensures Spaced([bp] + fl)
  {
    var r := [bp] + fl;
    forall i, j | 0 <= i < j < |r| ensures r[i] + 2 * DSIZE <= r[j] || r[j] + 2 * DSIZE <= r[i] {
      assert r[j] == fl[j - 1];
      assert i > 0 ==> r[i] == fl[i - 1];
    }
  }

  lemma PushedAt(m: Mem, fl: seq<int>, head: int, bp: int, k: int)
    requires Linked(m, fl, head) && FIRST <= bp
    requires forall k :: 0 <= k < |fl| ==> bp + 2 * DSIZE <= fl[k] || fl[k] + 2 * DSIZE <= bp
    requires 0 <= k <= |fl|
    ensures Get(Pushed(m, head, bp), FreeNext(([bp] + fl)[k])) == Succ([bp] + fl, k)
    ensures Get(Pushed(m, head, bp), FreePrev(([bp] + fl)[k])) == Pred([bp] + fl, k)
  {
    var r := [bp] + fl;
    if k == 0 {
      assert fl != [] ==> head == fl[0];
    } else {
      assert r[k] == fl[k - 1];
      LinkedAt(m, fl, head, k - 1);
      assert fl[k - 1] + DSIZE != head;
      if k > 1 {
        assert fl[k - 1] != head && r[k - 1] == fl[k - 2];
      }
    }
  }
}
