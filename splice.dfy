/** The list-splice engine: an `IMC_Unit` owns a doubly linked list of
    instructions through its head (`instructions`) and tail (`last_ins`)
    pointers, and the operations below rewire `prev`/`next` in place. Each
    is specified by the ghost sequence `Contents` it leaves behind. */
module Splice {
  import opened Instructions

  /** `s` with `x` placed at position `k`. */
  function InsertAt<T>(s: seq<T>, k: nat, x: T): seq<T>
    requires k <= |s|
  {
    s[..k] + [x] + s[k..]
  }

  /** `s` without its element at position `k`. */
  function RemoveAt<T>(s: seq<T>, k: nat): seq<T>
    requires k < |s|
  {
    s[..k] + s[k + 1..]
  }

  /** Removing an element keeps the others distinct and drops exactly it. */
  lemma RemoveAtDistinct(s: seq<Instruction>, k: nat)
    requires Distinct(s) && k < |s|
    ensures Distinct(RemoveAt(s, k))
    ensures forall x :: x in RemoveAt(s, k) <==> x in s && x != s[k]
  {
    var r := RemoveAt(s, k);
    forall a, b | 0 <= a < b < |r|
      ensures Nth(r, a) != Nth(r, b)
    {
      Apart(s, if a < k then a else a + 1, if b < k then b else b + 1);
    }
    forall x | x in s
      ensures x in r <==> x != s[k]
    {
      var j :| 0 <= j < |s| && s[j] == x;
      if j < k {
        assert r[j] == x;
        Apart(s, j, k);
      } else if j > k {
        assert r[j - 1] == x;
        Apart(s, j, k);
      } else {
        forall i | 0 <= i < |r|
          ensures r[i] != x
        {
          Apart(s, if i < k then i else i + 1, k);
        }
      }
    }
  }

  /** Adding a new element keeps the list distinct. */
  lemma InsertAtDistinct(s: seq<Instruction>, k: nat, x: Instruction)
    requires Distinct(s) && k <= |s| && x !in s
    ensures Distinct(InsertAt(s, k, x))
  {
    var r := InsertAt(s, k, x);
    forall a, b | 0 <= a < b < |r|
      ensures Nth(r, a) != Nth(r, b)
    {
      if a == k {
        assert r[b] == s[b - 1];
      } else if b == k {
        assert r[a] == s[a];
      } else {
        Apart(s, if a < k then a else a - 1, if b < k then b else b - 1);
      }
    }
  }

  /** The list after `move_ins` takes `x` out of `s` and puts it back
      directly after `t`. */
  ghost function MoveAfter(s: seq<Instruction>, x: Instruction, t: Instruction): seq<Instruction>
    requires Distinct(s) && x in s && t in s && x != t
  {
    var k := IndexOf(s, x);
    RemoveAtDistinct(s, k);
    var rest := RemoveAt(s, k);
    InsertAt(rest, IndexOf(rest, t) + 1, x)
  }

  /** Inserting a fresh instruction and unlinking it again gives back the
      list it was inserted into. */
  lemma {:induction false} UnlinkUndoesInsert(s: seq<Instruction>, k: nat, x: Instruction)
    requires k <= |s| && x !in s
    ensures IndexOf(InsertAt(s, k, x), x) == k
    ensures RemoveAt(InsertAt(s, k, x), k) == s
  {
    var r := InsertAt(s, k, x);
    assert r[..k] == s[..k] && r[k + 1..] == s[k..];
  }

  /** Inserting adds exactly one occurrence of the new element. */
  lemma MultisetInsertAt<T>(s: seq<T>, k: nat, x: T)
    requires k <= |s|
    ensures multiset(InsertAt(s, k, x)) == multiset(s) + multiset{x}
  {
    assert s == s[..k] + s[k..];
  }

  /** Removing takes away exactly one occurrence of the removed element. */
  lemma MultisetRemoveAt<T>(s: seq<T>, k: nat)
    requires k < |s|
    ensures multiset(RemoveAt(s, k)) + multiset{s[k]} == multiset(s)
  {
    assert s == s[..k] + [s[k]] + s[k + 1..];
  }

  /** `move_ins` neither loses nor duplicates an instruction. */
  lemma MoveAfterPermutes(s: seq<Instruction>, x: Instruction, t: Instruction)
    requires Distinct(s) && x in s && t in s && x != t
    ensures |MoveAfter(s, x, t)| == |s| && multiset(MoveAfter(s, x, t)) == multiset(s)
  {
    var k := IndexOf(s, x);
    var rest := RemoveAt(s, k);
    assert t in rest by {
      RemoveAtDistinct(s, k);
    }
    var r := InsertAt(rest, IndexOf(rest, t) + 1, x);
    assert MoveAfter(s, x, t) == r;
    MultisetRemoveAt(s, k);
    MultisetInsertAt(rest, IndexOf(rest, t) + 1, x);
  }

  /** After `move_ins` the list is still free of repetitions and `x`
      directly follows `t`. */
  lemma MoveAfterPlaces(s: seq<Instruction>, x: Instruction, t: Instruction)
    requires Distinct(s) && x in s && t in s && x != t
    ensures var r := MoveAfter(s, x, t);
      Distinct(r) && t in r && IndexOf(r, t) + 1 < |r| && r[IndexOf(r, t) + 1] == x
  {
    var k := IndexOf(s, x);
    RemoveAtDistinct(s, k);
    var rest := RemoveAt(s, k);
    var j := IndexOf(rest, t);
    var r := InsertAt(rest, j + 1, x);
    InsertAtDistinct(rest, j + 1, x);
    assert MoveAfter(s, x, t) == r;
    assert r[j] == t && r[j + 1] == x;
    IndexOfDistinct(r, j);
  }

  /** The links that `_delete_ins` leaves on the other instructions of `s`
      make `s` without position `k` a complete list. */
  lemma LinkedAfterRemove(s: seq<Instruction>, k: nat)
    requires Distinct(s) && k < |s|
    requires forall j | 0 <= j < |s| && j != k ::
               s[j].next == if j + 1 == k then After(s, k) else After(s, j)
    requires forall j | 0 <= j < |s| && j != k ::
               s[j].prev == if j == k + 1 then Before(s, k) else Before(s, j)
    ensures Linked(RemoveAt(s, k))
  {
    var r := RemoveAt(s, k);
    RemoveAtDistinct(s, k);
    forall m | 0 <= m < |r|
      ensures r[m].next == After(r, m) && r[m].prev == Before(r, m)
    {
      if m < k {
        assert r[m] == s[m];
      } else {
        assert r[m] == s[m + 1];
      }
    }
  }

  /** The links that `insert_ins`, `prepend_ins` and `emitb` leave on `s`
      and on the new instruction `x` thread `s` with `x` at position `p`;
      the result is a complete list unless `x` went to the front with a
      stale `prev`. */
  lemma ThreadedAfterInsert(s: seq<Instruction>, p: nat, x: Instruction)
    requires Distinct(s) && p <= |s| && x !in s
    requires forall j | 0 <= j < |s| :: s[j].next == if j + 1 == p then x else After(s, j)
    requires forall j | 0 <= j < |s| :: s[j].prev == if j == p then x else Before(s, j)
    requires x.next == (if p < |s| then s[p] else null)
    requires p > 0 ==> x.prev == s[p - 1]
    ensures Threaded(InsertAt(s, p, x))
    ensures Linked(InsertAt(s, p, x)) <==> (p == 0 ==> x.prev == null)
  {
    var r := InsertAt(s, p, x);
    InsertAtDistinct(s, p, x);
    forall m | 0 <= m < |r|
      ensures r[m].next == After(r, m) && (m > 0 ==> r[m].prev == Before(r, m))
    {
      if m < p {
        assert r[m] == s[m];
      } else if m > p {
        assert r[m] == s[m - 1];
      }
    }
    if p > 0 {
      assert r[0] == s[0];
    }
  }

  /** The links that `subst_ins` leaves on `s` and on `x` make `s` with `x`
      in place of position `k` a complete list. */
  lemma LinkedAfterReplace(s: seq<Instruction>, k: nat, x: Instruction)
    requires Distinct(s) && k < |s| && x !in s
    requires forall j | 0 <= j < |s| && j != k ::
               s[j].next == if j + 1 == k then x else After(s, j)
    requires forall j | 0 <= j < |s| && j != k ::
               s[j].prev == if j == k + 1 then x else Before(s, j)
    requires x.next == After(s, k) && x.prev == Before(s, k)
    ensures Linked(s[k := x])
  {
    var r := s[k := x];
    forall a, b | 0 <= a < b < |r|
      ensures Nth(r, a) != Nth(r, b)
    {
      if a != k && b != k {
        Apart(s, a, b);
      }
    }
  }

  class Unit {
    /** Head of the list (`unit->instructions`). */
    var instructions: Instruction?
    /** Tail of the list (`unit->last_ins`). */
    var lastIns: Instruction?
    /** The instructions of the unit in program order. */
    ghost var Contents: seq<Instruction>

    /** Head and tail point at the ends of `Contents`, both null when empty. */
    ghost predicate HeadTail()
      reads this
    {
      if Contents == [] then instructions == null && lastIns == null
      else instructions == Contents[0] && lastIns == Contents[|Contents| - 1]
    }

    ghost predicate Valid()
      reads this, Contents
    {
      HeadTail() && Linked(Contents)
    }

    /** The head, tail and links that `_delete_ins` leaves behind make a
        valid unit holding `s` without position `k`. */
    lemma RemovedValid(s: seq<Instruction>, k: nat)
      requires Distinct(s) && k < |s| && Contents == RemoveAt(s, k)
      requires forall j | 0 <= j < |s| && j != k ::
                 s[j].next == if j + 1 == k then After(s, k) else After(s, j)
      requires forall j | 0 <= j < |s| && j != k ::
                 s[j].prev == if j == k + 1 then Before(s, k) else Before(s, j)
      requires instructions == if k == 0 then After(s, k) else s[0]
      requires lastIns == if k + 1 == |s| then Before(s, k) else s[|s| - 1]
      ensures Valid()
    {
      LinkedAfterRemove(s, k);
    }

    /** A head and tail that follow an insertion at position `p` point at
        the ends of the new list. */
    lemma InsertedEnds(s: seq<Instruction>, p: nat, x: Instruction)
      requires p <= |s| && Contents == InsertAt(s, p, x)
      requires instructions == if p == 0 then x else s[0]
      requires lastIns == if p == |s| then x else s[|s| - 1]
      ensures HeadTail()
    {
    }

    /** The head, tail and links that an insertion leaves make a valid
        unit holding `s` with `x` at position `p`. */
    lemma InsertedValid(s: seq<Instruction>, p: nat, x: Instruction)
      requires Distinct(s) && p <= |s| && x !in s && Contents == InsertAt(s, p, x)
      requires forall j | 0 <= j < |s| :: s[j].next == if j + 1 == p then x else After(s, j)
      requires forall j | 0 <= j < |s| :: s[j].prev == if j == p then x else Before(s, j)
      requires x.next == (if p < |s| then s[p] else null) && x.prev == Before(InsertAt(s, p, x), p)
      requires instructions == if p == 0 then x else s[0]
      requires lastIns == if p == |s| then x else s[|s| - 1]
      ensures Valid()
    {
      if p > 0 {
        assert InsertAt(s, p, x)[p - 1] == s[p - 1];
      }
      ThreadedAfterInsert(s, p, x);
      InsertedEnds(s, p, x);
    }

    /** A head and tail that follow a replacement at position `k` point at
        the ends of the new list. */
    lemma ReplacedEnds(s: seq<Instruction>, k: nat, x: Instruction)
      requires k < |s| && Contents == s[k := x]
      requires instructions == if k == 0 then x else s[0]
      requires lastIns == if k + 1 == |s| then x else s[|s| - 1]
      ensures HeadTail()
    {
    }

    /** Inserting before position `p` without moving the head or tail
        leaves them at the ends of the new list unless `p` is the front. */
    lemma InsertedBeforeEnds(s: seq<Instruction>, p: nat, x: Instruction)
      requires Distinct(s) && p < |s| && x !in s && Contents == InsertAt(s, p, x)
      requires instructions == s[0] && lastIns == s[|s| - 1]
      ensures HeadTail() <==> s[p] != instructions
    {
      assert Contents[0] == (if p == 0 then x else s[0]);
      assert Contents[|Contents| - 1] == s[|s| - 1];
      if p != 0 {
        Apart(s, p, 0);
      }
    }

    /** `_delete_ins`: unlinks `ins`, reconnecting its neighbours or moving
        the head or tail, and returns the instruction that followed it.
        `ins` keeps its own (now stale) links. */
    method UnlinkIns(ins: Instruction) returns (next: Instruction?)
      requires Valid() && ins in Contents
      modifies this`instructions, this`lastIns, this`Contents, Contents`prev, Contents`next
      ensures Valid()
      ensures Contents == RemoveAt(old(Contents), IndexOf(old(Contents), ins))
      ensures next == old(ins.next)
      ensures old(instructions) == ins ==> instructions == next
      ensures old(lastIns) == ins ==> lastIns == old(ins.prev)
      ensures ins.prev == old(ins.prev) && ins.next == old(ins.next)
    {
      ghost var s := Contents;
      ghost var k := IndexOf(s, ins);
      next := ins.next;
      var prev := ins.prev;
      Neighbours(s, k);
      assert instructions == s[0] && lastIns == s[|s| - 1];
      if prev != null {
        prev.next := next;
      } else {
        instructions := next;
      }
      if next != null {
        next.prev := prev;
      } else {
        lastIns := prev;
      }
      Contents := RemoveAt(s, k);
      forall j | 0 <= j < |s| && j != k
        ensures s[j].next == if j + 1 == k then After(s, k) else After(s, j)
        ensures s[j].prev == if j == k + 1 then Before(s, k) else Before(s, j)
      {
        if j + 1 != k && k > 0 {
          Apart(s, j, k - 1);
        }
        if j != k + 1 && k + 1 < |s| {
          Apart(s, j, k + 1);
        }
      }
      RemovedValid(s, k);
    }

    /** `delete_ins`: `_delete_ins`; releasing the node's memory is not
        modelled. */
    method DeleteIns(ins: Instruction) returns (next: Instruction?)
      requires Valid() && ins in Contents
      modifies this`instructions, this`lastIns, this`Contents, Contents`prev, Contents`next
      ensures Valid()
      ensures Contents == RemoveAt(old(Contents), IndexOf(old(Contents), ins))
      ensures next == old(ins.next)
    {
      next := UnlinkIns(ins);
    }

    /** The head branch shared by `insert_ins` and `prepend_ins`: `tmp`
        becomes the head and takes the old head's line whatever its own;
        on an empty list it also becomes the tail. Its `prev` is left as it
        was, so the list is complete exactly when that was null. */
    method LinkFirst(tmp: Instruction)
      requires Valid() && tmp !in Contents
      modifies this`instructions, this`lastIns, this`Contents, Contents`prev, tmp`next, tmp`line
      ensures Contents == [tmp] + old(Contents)
      ensures HeadTail() && Threaded(Contents) && tmp.prev == old(tmp.prev)
      ensures Valid() <==> old(tmp.prev) == null
      ensures tmp.line == if old(Contents) == [] then old(tmp.line) else old(Contents[0].line)
    {
      ghost var s := Contents;
      var next := instructions;
      instructions := tmp;
      tmp.next := next;
      if next != null {
        next.prev := tmp;
        tmp.line := next.line;
      } else {
        lastIns := tmp;
      }
      forall j | 0 <= j < |s|
        ensures s[j].next == After(s, j)
        ensures s[j].prev == if j == 0 then tmp else Before(s, j)
      {
        assert j != 0 ==> s[j] != next;
      }
      Contents := InsertAt(s, 0, tmp);
      ThreadedAfterInsert(s, 0, tmp);
      InsertedEnds(s, 0, tmp);
    }

    /** The anchored branch of `insert_ins`: `tmp` goes directly after
        `ins`, becoming the tail if `ins` was, and takes `ins`'s line when
        its own is 0. */
    method LinkAfter(ins: Instruction, tmp: Instruction)
      requires Valid() && ins in Contents && tmp !in Contents
      modifies this`lastIns, this`Contents, Contents`prev, Contents`next, tmp`prev, tmp`next, tmp`line
      ensures Valid()
      ensures Contents == InsertAt(old(Contents), IndexOf(old(Contents), ins) + 1, tmp)
      ensures tmp.line == if old(tmp.line) == 0 then ins.line else old(tmp.line)
    {
      ghost var s := Contents;
      ghost var p := IndexOf(s, ins) + 1;
      Neighbours(s, p - 1);
      assert instructions == s[0] && lastIns == s[|s| - 1];
      forall j | 0 <= j < |s|
        ensures j + 1 != p ==> s[j] != ins
        ensures j != p && p < |s| ==> s[j] != s[p]
      {
        if j + 1 != p {
          Apart(s, j, p - 1);
        }
        if j != p && p < |s| {
          Apart(s, j, p);
        }
      }
      var next := ins.next;
      assert tmp != ins && tmp != next && next != ins;
      ins.next := tmp;
      tmp.prev := ins;
      tmp.next := next;
      if next != null {
        next.prev := tmp;
      } else {
        lastIns := tmp;
      }
      if tmp.line == 0 {
        tmp.line := ins.line;
      }
      Contents := InsertAt(s, p, tmp);
      InsertedValid(s, p, tmp);
    }

    /** The anchored branch of `prepend_ins`: `tmp` goes directly before
        `ins` and takes `ins`'s line when its own is 0. Neither the head
        nor the tail pointer is touched, so the unit stays valid exactly
        when `ins` was not the head. */
    method LinkBefore(ins: Instruction, tmp: Instruction)
      requires Valid() && ins in Contents && tmp !in Contents
      modifies this`Contents, Contents`prev, Contents`next, tmp`prev, tmp`next, tmp`line
      ensures Contents == InsertAt(old(Contents), IndexOf(old(Contents), ins), tmp)
      ensures Linked(Contents)
      ensures Valid() <==> ins != instructions
      ensures tmp.line == if old(tmp.line) == 0 then ins.line else old(tmp.line)
    {
      ghost var s := Contents;
      ghost var p := IndexOf(s, ins);
      Neighbours(s, p);
      assert instructions == s[0] && lastIns == s[|s| - 1];
      forall j | 0 <= j < |s|
        ensures j != p ==> s[j] != ins
        ensures j + 1 != p && p > 0 ==> s[j] != s[p - 1]
      {
        if j != p {
          Apart(s, j, p);
        }
        if j + 1 != p && p > 0 {
          Apart(s, j, p - 1);
        }
      }
      var prev := ins.prev;
      assert tmp != ins && tmp != prev && prev != ins;
      ins.prev := tmp;
      tmp.next := ins;
      tmp.prev := prev;
      if prev != null {
        prev.next := tmp;
      }
      if tmp.line == 0 {
        tmp.line := ins.line;
      }
      forall j | 0 <= j < |s|
        ensures s[j].next == if j + 1 == p then tmp else After(s, j)
        ensures s[j].prev == if j == p then tmp else Before(s, j)
      {
      }
      Contents := InsertAt(s, p, tmp);
      ThreadedAfterInsert(s, p, tmp);
      InsertedBeforeEnds(s, p, tmp);
    }

    /** `insert_ins`: puts `tmp` directly after `ins`, or at the head when
        `ins` is null. */
    method InsertIns(ins: Instruction?, tmp: Instruction)
      requires Valid() && tmp !in Contents
      requires ins != null ==> ins in Contents
      modifies this`instructions, this`lastIns, this`Contents, Contents`prev, Contents`next
      modifies tmp`prev, tmp`next, tmp`line
      ensures ins != null ==> Valid()
      ensures ins != null ==> Contents == InsertAt(old(Contents), IndexOf(old(Contents), ins) + 1, tmp)
      ensures ins != null ==> tmp.line == if old(tmp.line) == 0 then ins.line else old(tmp.line)
      ensures ins == null ==> Contents == [tmp] + old(Contents)
      ensures ins == null ==> HeadTail() && Threaded(Contents) && tmp.prev == old(tmp.prev)
      ensures ins == null ==> (Valid() <==> old(tmp.prev) == null)
      ensures ins == null ==> tmp.line == if old(Contents) == [] then old(tmp.line) else old(Contents[0].line)
    {
      if ins == null {
        LinkFirst(tmp);
      } else {
        LinkAfter(ins, tmp);
      }
    }

    /** `prepend_ins`: puts `tmp` directly before `ins`, or at the head when
        `ins` is null (the source then reads the old head, so the list must
        not be empty). With an anchor the head pointer is never updated: if
        the anchor was the head, the links include `tmp` but
        `unit->instructions` still points at the anchor. */
    method PrependIns(ins: Instruction?, tmp: Instruction)
      requires Valid() && tmp !in Contents
      requires ins == null ==> Contents != []
      requires ins != null ==> ins in Contents
      modifies this`instructions, this`lastIns, this`Contents, Contents`prev, Contents`next
      modifies tmp`prev, tmp`next, tmp`line
      ensures ins == null ==> Contents == [tmp] + old(Contents)
      ensures ins == null ==> HeadTail() && Threaded(Contents) && tmp.prev == old(tmp.prev)
      ensures ins == null ==> (Valid() <==> old(tmp.prev) == null)
      ensures ins == null ==> tmp.line == old(Contents[0].line)
      ensures ins != null ==> Contents == InsertAt(old(Contents), IndexOf(old(Contents), ins), tmp)
      ensures ins != null ==> Linked(Contents)
      ensures ins != null ==> instructions == old(instructions) && lastIns == old(lastIns)
      ensures ins != null ==> (Valid() <==> ins != old(instructions))
      ensures ins != null ==> tmp.line == if old(tmp.line) == 0 then ins.line else old(tmp.line)
    {
      if ins == null {
        LinkFirst(tmp);
      } else {
        LinkBefore(ins, tmp);
      }
    }

    /** `prepend_ins` as evidently intended: like `PrependIns`, but with an
        anchor at the head `tmp` becomes the new head. */
    method PrependInsCorrected(ins: Instruction?, tmp: Instruction)
      requires Valid() && tmp !in Contents
      requires ins == null ==> Contents != []
      requires ins != null ==> ins in Contents
      modifies this`instructions, this`lastIns, this`Contents, Contents`prev, Contents`next
      modifies tmp`prev, tmp`next, tmp`line
      ensures ins == null ==> Contents == [tmp] + old(Contents)
      ensures ins == null ==> (Valid() <==> old(tmp.prev) == null)
      ensures ins != null ==> Valid()
      ensures ins != null ==> Contents == InsertAt(old(Contents), IndexOf(old(Contents), ins), tmp)
      ensures ins != null ==> tmp.line == if old(tmp.line) == 0 then ins.line else old(tmp.line)
    {
      if ins == null {
        LinkFirst(tmp);
      } else {
        LinkBeforeCorrected(ins, tmp);
      }
    }

    /** The anchored branch of `PrependInsCorrected`. */
    method LinkBeforeCorrected(ins: Instruction, tmp: Instruction)
      requires Valid() && ins in Contents && tmp !in Contents
      modifies this`instructions, this`Contents, Contents`prev, Contents`next, tmp`prev, tmp`next, tmp`line
      ensures Valid()
      ensures Contents == InsertAt(old(Contents), IndexOf(old(Contents), ins), tmp)
      ensures tmp.line == if old(tmp.line) == 0 then ins.line else old(tmp.line)
    {
      ghost var s := Contents;
      ghost var p := IndexOf(s, ins);
      Neighbours(s, p);
      assert instructions == s[0] && lastIns == s[|s| - 1];
      forall j | 0 <= j < |s|
        ensures j != p ==> s[j] != ins
        ensures j + 1 != p && p > 0 ==> s[j] != s[p - 1]
      {
        if j != p {
          Apart(s, j, p);
        }
        if j + 1 != p && p > 0 {
          Apart(s, j, p - 1);
        }
      }
      var prev := ins.prev;
      assert tmp != ins && tmp != prev && prev != ins;
      ins.prev := tmp;
      tmp.next := ins;
      tmp.prev := prev;
      if prev != null {
        prev.next := tmp;
      } else {
        instructions := tmp;
      }
      if tmp.line == 0 {
        tmp.line := ins.line;
      }
      forall j | 0 <= j < |s|
        ensures s[j].next == if j + 1 == p then tmp else After(s, j)
        ensures s[j].prev == if j == p then tmp else Before(s, j)
      {
      }
      Contents := InsertAt(s, p, tmp);
      InsertedValid(s, p, tmp);
    }

    /** `subst_ins`: puts `tmp` in the place of `ins`, which keeps its own
        stale links; `tmp` takes `ins`'s line when its own is 0. Releasing
        `ins` when `needsFreeing` is set is not modelled. */
    method SubstIns(ins: Instruction, tmp: Instruction, needsFreeing: bool)
      requires Valid() && ins in Contents && tmp !in Contents
      modifies this`instructions, this`lastIns, this`Contents, Contents`prev, Contents`next
      modifies tmp`prev, tmp`next, tmp`line
      ensures Valid()
      ensures Contents == old(Contents)[IndexOf(old(Contents), ins) := tmp]
      ensures tmp.line == if old(tmp.line) == 0 then ins.line else old(tmp.line)
      ensures ins.prev == old(ins.prev) && ins.next == old(ins.next)
    {
      ghost var s := Contents;
      ghost var k := IndexOf(s, ins);
      Neighbours(s, k);
      assert instructions == s[0] && lastIns == s[|s| - 1];
      forall j | 0 <= j < |s| && j != k
        ensures j + 1 != k && k > 0 ==> s[j] != s[k - 1]
        ensures j != k + 1 && k + 1 < |s| ==> s[j] != s[k + 1]
      {
        if j + 1 != k && k > 0 {
          Apart(s, j, k - 1);
        }
        if j != k + 1 && k + 1 < |s| {
          Apart(s, j, k + 1);
        }
      }
      var prev := ins.prev;
      assert tmp != ins && tmp != prev && prev != ins && tmp != ins.next && ins.next != ins;
      if prev != null {
        prev.next := tmp;
      } else {
        instructions := tmp;
      }
      tmp.prev := prev;
      tmp.next := ins.next;
      if ins.next != null {
        ins.next.prev := tmp;
      } else {
        lastIns := tmp;
      }
      if tmp.line == 0 {
        tmp.line := ins.line;
      }
      Contents := s[k := tmp];
      LinkedAfterReplace(s, k, tmp);
      ReplacedEnds(s, k, tmp);
    }

    /** `move_ins`: unlinks `ins` and inserts it again directly after `to`;
        returns the instruction that followed `ins` where it was. */
    method MoveIns(ins: Instruction, to: Instruction) returns (next: Instruction?)
      requires Valid() && ins in Contents && to in Contents && ins != to
      modifies this`instructions, this`lastIns, this`Contents, Contents`prev, Contents`next
      modifies ins`line
      ensures Valid()
      ensures Contents == MoveAfter(old(Contents), ins, to)
      ensures next == old(ins.next)
      ensures ins.line == if old(ins.line) == 0 then to.line else old(ins.line)
    {
      ghost var s := Contents;
      ghost var k := IndexOf(s, ins);
      RemoveAtDistinct(s, k);
      next := UnlinkIns(ins);
      InsertIns(to, ins);
    }
  }

  /** The unit `u` as a set, empty for null. */
  function UnitSet(u: Unit?): set<Unit> {
    if u == null then {} else {u}
  }

  /** The instruction `i` as a set, empty for null. */
  function InsSet(i: Instruction?): set<Instruction> {
    if i == null then {} else {i}
  }

  /** `emitb`: appends `i` at the tail of `unit` (as head and tail of an
      empty list), stamps it with the lexer's current line and returns it;
      with no unit or no instruction it does nothing and returns null. The
      source never clears `i->next`, nor `i->prev` when the list was empty,
      so the list is well formed afterwards exactly when those were null;
      either way every link but `i->next` follows the new order. */
  method Emitb(imccLine: int, unit: Unit?, i: Instruction?) returns (r: Instruction?)
    requires unit != null ==> unit.Valid()
    requires unit != null && i != null ==> i !in unit.Contents
    modifies UnitSet(if i != null then unit else null)`instructions
    modifies UnitSet(if i != null then unit else null)`lastIns
    modifies UnitSet(if i != null then unit else null)`Contents
    modifies InsSet(if unit != null && i != null then unit.lastIns else null)`next
    modifies InsSet(if unit != null then i else null)`prev, InsSet(if unit != null then i else null)`line
    ensures unit == null || i == null ==> r == null
    ensures unit != null && i == null ==>
              unit.Valid() && unit.Contents == old(unit.Contents) &&
              unit.instructions == old(unit.instructions) && unit.lastIns == old(unit.lastIns)
    ensures unit != null && i != null ==> r == i && i.line == imccLine
    ensures unit != null && i != null ==> unit.Contents == old(unit.Contents) + [i]
    ensures unit != null && i != null ==> unit.HeadTail() && i.next == old(i.next)
    ensures unit != null && i != null ==>
              i.prev == if old(unit.Contents) == [] then old(i.prev) else old(unit.lastIns)
    ensures unit != null && i != null ==>
              Distinct(unit.Contents) && BackwardLinked(unit.Contents) &&
              forall k | 0 <= k < |old(unit.Contents)| :: unit.Contents[k].next == unit.Contents[k + 1]
    ensures unit != null && i != null ==>
              (unit.Valid() <==> old(i.next) == null && (old(unit.Contents) == [] ==> old(i.prev) == null))
  {
    if unit == null || i == null {
      return null;
    }
    ghost var s := unit.Contents;
    if unit.instructions == null {
      unit.instructions := i;
      unit.lastIns := i;
    } else {
      Neighbours(s, |s| - 1);
      unit.lastIns.next := i;
      i.prev := unit.lastIns;
      unit.lastIns := i;
    }
    i.line := imccLine;
    unit.Contents := s + [i];
    r := i;
    assert unit.Contents == InsertAt(s, |s|, i);
    unit.InsertedEnds(s, |s|, i);
    InsertAtDistinct(s, |s|, i);
    forall j | 0 <= j < |s|
      ensures s[j].next == if j + 1 == |s| then i else After(s, j)
      ensures s[j].prev == Before(s, j)
    {
      assert j + 1 != |s| ==> s[j] != old(unit.lastIns);
    }
    if i.next == null {
      ThreadedAfterInsert(s, |s|, i);
    } else {
      assert unit.Contents[|s|].next != After(unit.Contents, |s|);
    }
  }
}
