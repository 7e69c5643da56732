/**
 * Model of br::basic_timer_wheel and br::basic_expirable
 * (src/include/timer_wheel.h).
 *
 * The wheel is a ring of `slots` intrusive lists, a cursor `c_idx_`, a slot
 * duration, the duration of one revolution and a start time. An expirable is
 * an ilist node that also carries `n_loops_`, the number of further
 * revolutions it has to wait once its slot comes round; here that counter is
 * the field `loops` of IntrusiveList.Node.
 *
 * Every method is proved against the pure functions of WheelSpec: the ghost
 * function `Abs` reads the wheel's lists as a WheelSpec.Wheel, and
 * CheckExpiration and Publish change it exactly as WheelSpec.Check and
 * WheelSpec.Place / WheelSpec.Relabel say. The virtual `expire()` call is the
 * sequence of nodes CheckExpiration returns, in call order.
 */
module TimerWheelModel {
  import opened IntrusiveList
  import opened WheelSpec

  /** The entries of a list: each member with its current loop count. */
  ghost function EntriesOf(ms: seq<Node>): (r: seq<Entry<Node>>)
    reads set n | n in ms
    ensures |r| == |ms|
    ensures forall j :: 0 <= j < |ms| ==> r[j] == Entry(ms[j], ms[j].loops)
  {
    seq(|ms|, j requires 0 <= j < |ms| reads set n | n in ms => Entry(ms[j], ms[j].loops))
  }

  /** The entries of elements `xs` with loop counts `ls`, pairwise. */
  function Zip<T>(xs: seq<T>, ls: seq<nat>): (r: seq<Entry<T>>)
    requires |xs| == |ls|
    ensures |r| == |xs|
  {
    seq(|xs|, i requires 0 <= i < |xs| => Entry(xs[i], ls[i]))
  }

  /** The loop counts the nodes `xs` carry. */
  lemma LoopsOf(xs: seq<Node>) returns (ls: seq<nat>)
    ensures LoopsAre(xs, ls) && Zip(xs, ls) == EntriesOf(xs)
  {
    ls := seq(|xs|, i requires 0 <= i < |xs| reads set n | n in xs => xs[i].loops);
  }

  /** Loop counts that the nodes carry give the nodes' entries. */
  lemma EntriesZip(xs: seq<Node>, ls: seq<nat>)
    requires LoopsAre(xs, ls)
    ensures EntriesOf(xs) == Zip(xs, ls)
  {
  }

  /**
   * Sweeping entry `e` of a slot moves it from the unswept rest to the swept
   * part: kept with one loop fewer, or expired.
   */
  lemma KeptNext<T>(K: seq<Entry<T>>, e: Entry<T>, R: seq<Entry<T>>, all: seq<Entry<T>>)
    requires K + Kept([e] + R) == Kept(all)
    ensures e.loops == 0 ==> K + Kept(R) == Kept(all)
    ensures e.loops != 0 ==> (K + [Entry(e.item, e.loops - 1)]) + Kept(R) == Kept(all)
  {
    SweepCons(e, R);
    if e.loops != 0 {
      assert K + ([Entry(e.item, e.loops - 1)] + Kept(R)) == (K + [Entry(e.item, e.loops - 1)]) + Kept(R);
    } else {
      assert [] + Kept(R) == Kept(R);
    }
  }

  lemma DueNext<T>(D: seq<T>, e: Entry<T>, R: seq<Entry<T>>, all: seq<Entry<T>>)
    requires D + Due([e] + R) == Due(all)
    ensures e.loops == 0 ==> (D + [e.item]) + Due(R) == Due(all)
    ensures e.loops != 0 ==> D + Due(R) == Due(all)
  {
    SweepCons(e, R);
    if e.loops == 0 {
      assert D + ([e.item] + Due(R)) == (D + [e.item]) + Due(R);
    } else {
      assert [] + Due(R) == Due(R);
    }
  }

  /** The entry at position |K| of a list whose entries are K, e and then R. */
  lemma ZipAt<T>(xs: seq<T>, ls: seq<nat>, K: seq<Entry<T>>, e: Entry<T>, R: seq<Entry<T>>)
    requires |xs| == |ls| && Zip(xs, ls) == K + [e] + R
    ensures |K| < |xs| && xs[|K|] == e.item && ls[|K|] == e.loops
  {
    assert Zip(xs, ls)[|K|] == e;
  }

  /** Unlinking the entry at position |K| leaves K and then R. */
  lemma ZipRemove<T>(xs: seq<T>, ls: seq<nat>, K: seq<Entry<T>>, e: Entry<T>, R: seq<Entry<T>>)
    requires |xs| == |ls| && Zip(xs, ls) == K + [e] + R
    ensures |K| < |xs| && Zip(RemoveAt(xs, |K|), RemoveAt(ls, |K|)) == K + R
  {
    var k, Z, Z' := |K|, Zip(xs, ls), Zip(RemoveAt(xs, |K|), RemoveAt(ls, |K|));
    assert |Z| == |K| + 1 + |R|;
    forall i | 0 <= i < |Z'|
      ensures Z'[i] == (K + R)[i]
    {
      if i < k {
        assert Z[i] == K[i];
      } else {
        assert Z[i + 1] == R[i - k];
      }
    }
  }

  /** Counting down the loops of the entry at position |K| changes only that entry. */
  lemma ZipCount<T>(xs: seq<T>, ls: seq<nat>, K: seq<Entry<T>>, e: Entry<T>, R: seq<Entry<T>>)
    requires |xs| == |ls| && Zip(xs, ls) == K + [e] + R && e.loops > 0
    ensures |K| < |xs| && Zip(xs, ls[|K| := e.loops - 1]) == K + [Entry(e.item, e.loops - 1)] + R
  {
    var k, Z, Z' := |K|, Zip(xs, ls), Zip(xs, ls[|K| := e.loops - 1]);
    var T' := K + [Entry(e.item, e.loops - 1)] + R;
    assert |Z| == |K| + 1 + |R|;
    forall i | 0 <= i < |Z'|
      ensures Z'[i] == T'[i]
    {
      if i < k {
        assert Z[i] == K[i];
      } else if i == k {
        assert Z[i] == e;
      } else {
        assert Z[i] == R[i - k - 1];
      }
    }
  }

  /** The nodes `xs` carry the loop counts `ls`, pairwise. */
  ghost predicate LoopsAre(xs: seq<Node>, ls: seq<nat>)
    reads set n | n in xs
  {
    |xs| == |ls| && forall i :: 0 <= i < |xs| ==> xs[i].loops == ls[i]
  }

  /** Every node of `ns` has left its list as unlink leaves a node: no owner and no links. */
  ghost predicate Unlinked(ns: seq<Node>)
    reads ns`owner, ns`prev, ns`next
  {
    forall n :: n in ns ==> n.owner == null && n.prev == null && n.next == null
  }

  /**
   * One step of the sweep, on the node `it` at position |K| of the slot, whose
   * entries are K, then the entry e of `it`, then R: take its successor first,
   * then expire and unlink it when it has no loops left, or else count one
   * loop down.
   */
  method Visit(slot: IList, it: Node, ghost ls: seq<nat>, ghost K: seq<Entry<Node>>, ghost e: Entry<Node>, ghost R: seq<Entry<Node>>)
    returns (next: Node, expired: bool, ghost ls': seq<nat>)
    requires slot.Valid() && LoopsAre(slot.Members, ls) && Zip(slot.Members, ls) == K + [e] + R
    requires it == (slot.Members + [slot.tail])[|K|]
    modifies slot, slot.Nodes()`prev, slot.Nodes()`next, slot.Nodes()`owner, it`loops
    ensures slot.Valid() && slot.Nodes() <= old(slot.Nodes()) && LoopsAre(slot.Members, ls')
    ensures expired <==> e.loops == 0
    ensures expired ==> Zip(slot.Members, ls') == K + R && next == (slot.Members + [slot.tail])[|K|]
    ensures expired ==> it.owner == null && it.prev == null && it.next == null
    ensures !expired ==>
              && Zip(slot.Members, ls') == K + [Entry(e.item, e.loops - 1)] + R
              && next == (slot.Members + [slot.tail])[|K| + 1]
  {
    ghost var k, xs := |K|, slot.Members;
    ZipAt(xs, ls, K, e, R);
    slot.Successor(k);
    next := it.next;
    expired := it.loops == 0;
    if expired {
      it.Unlink();
      ZipRemove(xs, ls, K, e, R);
      ls' := RemoveAt(ls, k);
      assert forall n :: n in slot.Members ==> n in xs;
      assert (slot.Members + [slot.tail])[k] == (xs + [slot.tail])[k + 1];
      forall i | 0 <= i < |slot.Members|
        ensures slot.Members[i].loops == ls'[i]
      {
        if i < k {
          assert slot.Members[i] == xs[i] && ls'[i] == ls[i];
        } else {
          assert slot.Members[i] == xs[i + 1] && ls'[i] == ls[i + 1];
        }
      }
    } else {
      it.loops := it.loops - 1;
      ZipCount(xs, ls, K, e, R);
      ls' := ls[k := e.loops - 1];
    }
  }

  /** One turn of the inner loop of check_expiration: visit `it`, then move on to the node taken before. */
  method SweepStep(slot: IList, it: Node, fired: seq<Node>, ghost ls: seq<nat>, ghost E: seq<Entry<Node>>, ghost j: nat, ghost K: seq<Entry<Node>>)
    returns (next: Node, fired': seq<Node>, ghost ls': seq<nat>, ghost K': seq<Entry<Node>>)
    requires j <= |E| && slot.Valid() && LoopsAre(slot.Members, ls)
    requires Zip(slot.Members, ls) == K + E[j..]
    requires it == (slot.Members + [slot.tail])[|K|] && it != slot.tail
    requires K + Kept(E[j..]) == Kept(E) && fired + Due(E[j..]) == Due(E)
    requires Unlinked(fired)
    modifies slot, slot.Nodes()`prev, slot.Nodes()`next, slot.Nodes()`owner, slot.Nodes()`loops
    ensures j < |E| && slot.Valid() && slot.Nodes() <= old(slot.Nodes()) && LoopsAre(slot.Members, ls')
    ensures Zip(slot.Members, ls') == K' + E[j + 1..]
    ensures next == (slot.Members + [slot.tail])[|K'|]
    ensures K' + Kept(E[j + 1..]) == Kept(E) && fired' + Due(E[j + 1..]) == Due(E)
    ensures Unlinked(fired')
  {
    slot.Ends();
    assert j < |E|;
    assert E[j..] == [E[j]] + E[j + 1..];
    ghost var e, R := E[j], E[j + 1..];
    assert K + ([e] + R) == (K + [e]) + R;
    ZipAt(slot.Members, ls, K, e, R);
    KeptNext(K, e, R, E);
    DueNext(fired, e, R, E);
    slot.NodesOwned();
    assert it in slot.Nodes();
    var expired;
    next, expired, ls' := Visit(slot, it, ls, K, e, R);
    if expired {
      fired', K' := fired + [it], K;
    } else {
      fired', K' := fired, K + [Entry(e.item, e.loops - 1)];
    }
  }

  /**
   * The inner loop of check_expiration on one slot: walk the list from
   * begin() to end(), taking the next node before touching the current one;
   * a node with no loops left is expired (appended to `fired`) and unlinked,
   * any other loses one loop.
   */
  method Sweep(slot: IList, ghost E: seq<Entry<Node>>, ghost ls0: seq<nat>) returns (fired: seq<Node>, ghost ls: seq<nat>)
    requires slot.Valid() && LoopsAre(slot.Members, ls0) && Zip(slot.Members, ls0) == E
    modifies slot, slot.Nodes()`prev, slot.Nodes()`next, slot.Nodes()`owner, slot.Nodes()`loops
    ensures slot.Valid() && slot.Nodes() <= old(slot.Nodes())
    ensures LoopsAre(slot.Members, ls) && Zip(slot.Members, ls) == Kept(E)
    ensures fired == Due(E) && Unlinked(fired)
  {
    ls := ls0;
    slot.Ends();
    var it: Node := slot.head.next;
    fired := [];
    ghost var K: seq<Entry<Node>> := [];
    ghost var j := 0;
    assert E[j..] == E;
    while it != slot.tail
      invariant 0 <= j <= |E|
      invariant slot.Valid() && slot.Nodes() <= old(slot.Nodes()) && LoopsAre(slot.Members, ls)
      invariant Zip(slot.Members, ls) == K + E[j..]
      invariant it == (slot.Members + [slot.tail])[|K|]
      invariant K + Kept(E[j..]) == Kept(E)
      invariant fired + Due(E[j..]) == Due(E) && Unlinked(fired)
      decreases |E| - j
    {
      it, fired, ls, K := SweepStep(slot, it, fired, ls, E, j, K);
      j := j + 1;
    }
    slot.Ends();
    assert |K| == |slot.Members| && E[j..] == [];
  }

  /** Sweep, stated on the entries of the slot. */
  method SweepSlot(slot: IList) returns (fired: seq<Node>)
    requires slot.Valid()
    modifies slot, slot.Nodes()`prev, slot.Nodes()`next, slot.Nodes()`owner, slot.Nodes()`loops
    ensures slot.Valid() && slot.Nodes() <= old(slot.Nodes())
    ensures EntriesOf(slot.Members) == Kept(old(EntriesOf(slot.Members)))
    ensures fired == Due(old(EntriesOf(slot.Members))) && Unlinked(fired)
  {
    ghost var ls := LoopsOf(slot.Members);
    ghost var ls';
    fired, ls' := Sweep(slot, EntriesOf(slot.Members), ls);
    EntriesZip(slot.Members, ls');
  }

  /** push_back, stated on the entries of the list: a free node joins at the back with its loop count. */
  method Append(slot: IList, e: Node)
    requires slot.Valid()
    modifies slot, slot.Nodes()`prev, slot.Nodes()`next, slot.Nodes()`owner, e`prev, e`next, e`owner
    ensures slot.Valid() && (old(e.owner) != null ==> unchanged(e))
    ensures slot.Nodes() == old(slot.Nodes()) + (if old(e.owner) == null then {e} else {})
    ensures EntriesOf(slot.Members)
            == old(EntriesOf(slot.Members)) + (if old(e.owner) == null then [Entry(e, e.loops)] else [])
  {
    ghost var free := e.owner == null;
    slot.PushBack(e);
    ghost var ms, r, r0 := slot.Members, EntriesOf(slot.Members), old(EntriesOf(slot.Members));
    if free {
      forall j | 0 <= j < |ms| ensures r[j] == (r0 + [Entry(e, e.loops)])[j] {
        if j < |r0| { assert ms[j] == old(slot.Members)[j]; }
      }
    } else {
      forall j | 0 <= j < |ms| ensures r[j] == r0[j] {
        assert ms[j] == old(slot.Members)[j];
      }
    }
  }

  /** A sequence that agrees with `S` everywhere but at `c`, where it holds `v`, is `S[c := v]`. */
  lemma UpdateAt<T>(S1: seq<T>, S: seq<T>, c: nat, v: T)
    requires |S1| == |S| && c < |S| && S1[c] == v
    requires forall i :: 0 <= i < |S| && i != c ==> S1[i] == S[i]
    ensures S1 == S[c := v]
  {
  }

  /** br::basic_timer_wheel. */
  class TimerWheel {
    /** `slots_`: one intrusive list per slot; the vector itself never changes after construction. */
    const slots: seq<IList>
    /** `c_idx_`: the slot swept next. */
    var cursor: nat
    /** `slot_duration_`. */
    const slotDuration: nat
    /** `one_loop_duration_`: the time one revolution of the wheel takes. */
    const loopDuration: nat
    /** `start_time_`: the start of the slot under the cursor. */
    var startTime: nat
    /** The index of each slot's list; it shows that no list serves two slots. */
    ghost const position: map<IList, nat>

    /**
     * `basic_timer_wheel(sd, ns, st)`: `ns` empty slots of duration `sd`, the
     * cursor on slot 0 and the start time `st`.
     */
    constructor (sd: nat, ns: nat, st: nat)
      requires sd > 0 && ns > 0
      ensures Valid() && Abs() == Empty(ns) && fresh(Lists())
      ensures slotDuration == sd && loopDuration == sd * ns && startTime == st
    {
      var lists: seq<IList> := [];
      ghost var pos: map<IList, nat> := map[];
      while |lists| < ns
        invariant |lists| <= ns
        invariant forall i :: 0 <= i < |lists| ==> fresh(lists[i]) && lists[i].Valid() && lists[i].Members == []
        invariant forall i :: 0 <= i < |lists| ==> lists[i] in pos && pos[lists[i]] == i
      {
        var list := new IList();
        pos := pos[list := |lists|];
        lists := lists + [list];
      }
      slots, position := lists, pos;
      cursor, slotDuration, loopDuration, startTime := 0, sd, sd * ns, st;
      assert sd * ns > 0;
    }

    ghost function Lists(): set<IList>
    {
      set l | l in slots
    }

    /** Every node, sentinels included, of every slot. */
    ghost function NodeSet(): set<Node>
      reads Lists()
    {
      set i, n | 0 <= i < |slots| && n in slots[i].Nodes() :: n
    }

    lemma MembersInNodeSet()
      ensures forall i, n :: 0 <= i < |slots| && n in slots[i].Nodes() ==> n in NodeSet()
      ensures forall i, n :: 0 <= i < |slots| && n in slots[i].Members ==> n in NodeSet()
    {
      forall i, n | 0 <= i < |slots| && n in slots[i].Members
        ensures n in NodeSet()
      {
        assert n in slots[i].Nodes();
      }
    }

    /** Every slot is a valid list of its own. */
    ghost predicate ListsValid()
      reads Lists(), NodeSet()
    {
      && |slots| > 0
      && (forall i :: 0 <= i < |slots| ==> slots[i].Valid())
      && (forall i :: 0 <= i < |slots| ==> slots[i] in position && position[slots[i]] == i)
    }

    /**
     * The wheel invariant: a positive slot duration, a revolution of
     * `|slots|` slots, the cursor on a slot, and one valid list of its
     * own per slot.
     */
    ghost predicate Valid()
      reads this, Lists(), NodeSet()
    {
      && slotDuration > 0 && loopDuration == slotDuration * |slots| && loopDuration > 0
      && cursor < |slots| && ListsValid()
    }

    /** The entries of slots `k` onwards. */
    ghost function SlotsFrom(k: nat): (r: seq<seq<Entry<Node>>>)
      reads Lists(), NodeSet()
      requires k <= |slots|
      ensures |r| == |slots| - k
      ensures forall i :: 0 <= i < |r| ==> r[i] == EntriesOf(slots[k + i].Members)
      decreases |slots| - k
    {
      if k == |slots| then []
      else
        MembersInNodeSet();
        [EntriesOf(slots[k].Members)] + SlotsFrom(k + 1)
    }

    /** The wheel's contents as a WheelSpec.Wheel: every slot's entries, in list order, and the cursor. */
    ghost function Abs(): (w: Wheel<Node>)
      reads this, Lists(), NodeSet()
      ensures |w.slots| == |slots| && w.cursor == cursor
      ensures forall i :: 0 <= i < |slots| ==> w.slots[i] == EntriesOf(slots[i].Members)
    {
      Wheel(SlotsFrom(0), cursor)
    }

    /** Every node of the wheel sits in some list, so a node that has left its list is not one of them. */
    lemma NodeSetOwned()
      requires ListsValid()
      ensures forall n :: n in NodeSet() ==> n.owner != null
    {
      forall n | n in NodeSet()
        ensures n.owner != null
      {
        var i :| 0 <= i < |slots| && n in slots[i].Nodes();
        slots[i].NodesOwned();
      }
    }

    /** A node belongs to one slot at most: every list owns its own nodes. */
    lemma Disjoint(i: nat, j: nat)
      requires ListsValid() && i < |slots| && j < |slots| && i != j
      ensures slots[i].Nodes() !! slots[j].Nodes()
    {
      slots[i].NodesOwned();
      slots[j].NodesOwned();
    }

    /**
     * The sweep of the slot under the cursor, seen from the whole wheel: that
     * slot's entries are swept, every other slot is left as it was.
     */
    method SweepCursor() returns (fired: seq<Node>)
      requires ListsValid() && cursor < |slots|
      modifies Lists(), NodeSet()`prev, NodeSet()`next, NodeSet()`owner, NodeSet()`loops
      ensures ListsValid() && NodeSet() <= old(NodeSet())
      ensures forall i :: 0 <= i < |slots| && i != cursor ==> EntriesOf(slots[i].Members) == old(EntriesOf(slots[i].Members))
      ensures EntriesOf(slots[cursor].Members) == Kept(old(EntriesOf(slots[cursor].Members)))
      ensures fired == Due(old(EntriesOf(slots[cursor].Members))) && Unlinked(fired)
    {
      var slot := slots[cursor];
      MembersInNodeSet();
      forall i | 0 <= i < |slots| && i != cursor
        ensures slots[i] != slot && slots[i].Nodes() !! slot.Nodes()
      {
        Disjoint(i, cursor);
      }
      fired := SweepSlot(slot);
      forall i | 0 <= i < |slots| && i != cursor
        ensures slots[i].Valid()
      {
        assert slots[i] != slot && slots[i].Members == old(slots[i].Members);
      }
      forall i | 0 <= i < |slots| && i != cursor
        ensures EntriesOf(slots[i].Members) == old(EntriesOf(slots[i].Members))
      {
        assert slots[i] != slot && slots[i].Members == old(slots[i].Members);
      }
      forall n | n in NodeSet()
        ensures n in old(NodeSet())
      {
        var i :| 0 <= i < |slots| && n in slots[i].Nodes();
      }
    }

    /** The cursor's slot swept, stated on the whole wheel. */
    method SweepWheel() returns (fired: seq<Node>)
      requires ListsValid() && cursor < |slots|
      modifies Lists(), NodeSet()`prev, NodeSet()`next, NodeSet()`owner, NodeSet()`loops
      ensures ListsValid() && NodeSet() <= old(NodeSet())
      ensures SlotsFrom(0) == old(SlotsFrom(0))[cursor := Kept(old(SlotsFrom(0))[cursor])]
      ensures fired == Due(old(SlotsFrom(0))[cursor]) && Unlinked(fired)
    {
      ghost var S, c := SlotsFrom(0), cursor;
      fired := SweepCursor();
      ghost var S1 := SlotsFrom(0);
      assert cursor == c;
      ghost var E0, E1 := old(EntriesOf(slots[c].Members)), EntriesOf(slots[c].Members);
      assert S1[c] == E1 && S[c] == E0 && E1 == Kept(E0);
      forall i | 0 <= i < |slots| && i != c
        ensures S1[i] == S[i]
      {
        assert S1[i] == EntriesOf(slots[i].Members);
        assert S[i] == old(EntriesOf(slots[i].Members));
      }
      UpdateAt(S1, S, c, Kept(S[c]));
    }

    /** `c_idx_ = (c_idx_ + 1) % slots_.size()`: moves the cursor and nothing else. */
    method Step()
      requires ListsValid() && cursor < |slots|
      modifies this`cursor
      ensures cursor == (old(cursor) + 1) % |slots|
      ensures ListsValid()
      ensures NodeSet() == old(NodeSet())
      ensures SlotsFrom(0) == old(SlotsFrom(0))
    {
      cursor := (cursor + 1) % |slots|;
      assert forall i :: 0 <= i < |slots| ==> slots[i].Nodes() == old(slots[i].Nodes());
    }

    /**
     * One pass of the outer loop of check_expiration: sweep the slot under the
     * cursor, then move the cursor to the next slot, wrapping at the last one.
     */
    method Turn() returns (fired: seq<Node>)
      requires Valid()
      modifies this`cursor, Lists(), NodeSet()`prev, NodeSet()`next, NodeSet()`owner, NodeSet()`loops
      ensures Valid() && NodeSet() <= old(NodeSet())
      ensures Abs() == Tick(old(Abs()))
      ensures fired == TickFired(old(Abs())) && Unlinked(fired)
    {
      fired := SweepWheel();
      Step();
    }

    /** Turn, adding what it expires to the elements expired before, which stay unlinked. */
    method Collect(fired: seq<Node>) returns (fired': seq<Node>)
      requires Valid() && Unlinked(fired)
      modifies this`cursor, Lists(), NodeSet()`prev, NodeSet()`next, NodeSet()`owner, NodeSet()`loops
      ensures Valid() && NodeSet() <= old(NodeSet())
      ensures Abs() == Tick(old(Abs()))
      ensures fired' == fired + TickFired(old(Abs())) && Unlinked(fired')
    {
      NodeSetOwned();
      assert forall n :: n in fired ==> n !in NodeSet();
      var expired := Turn();
      fired' := fired + expired;
    }

    /** `start_time_ += nSlotsTraversed * slot_duration_`: moves the start time and nothing else. */
    method Rebase(traversed: nat)
      requires Valid()
      modifies this`startTime
      ensures startTime == old(startTime) + traversed * slotDuration
      ensures Valid() && NodeSet() == old(NodeSet()) && Abs() == old(Abs())
    {
      startTime := startTime + traversed * slotDuration;
      assert forall i :: 0 <= i < |slots| ==> slots[i].Nodes() == old(slots[i].Nodes());
    }

    /** The `while (nSlotsTraversed--)` loop of `check_expiration`: `count` turns in a row. */
    method TurnTimes(count: nat) returns (fired: seq<Node>)
      requires Valid()
      modifies this`cursor, Lists(), NodeSet()`prev, NodeSet()`next, NodeSet()`owner, NodeSet()`loops
      ensures Valid() && NodeSet() <= old(NodeSet())
      ensures Abs() == Advance(old(Abs()), count) && fired == Fired(old(Abs()), count)
      ensures Unlinked(fired)
    {
      ghost var A0 := Abs();
      fired := [];
      var left: nat := count;
      ghost var done := 0;
      while left > 0
        invariant done + left == count
        invariant Valid() && NodeSet() <= old(NodeSet())
        invariant Abs() == Advance(A0, done) && fired == Fired(A0, done)
        invariant Unlinked(fired)
      {
        ghost var before := Abs();
        fired := Collect(fired);
        assert Abs() == Tick(before);
        left, done := left - 1, done + 1;
      }
      assert done == count && old(Abs()) == A0;
    }

    /**
     * `check_expiration(now)`: sweep one slot per whole slot duration elapsed
     * since the start time, moving the start time on by those slots. The
     * elements expired are returned in the order `expire()` is called on them.
     */
    method CheckExpiration(now: nat) returns (fired: seq<Node>)
      requires Valid() && startTime <= now
      modifies this`cursor, this`startTime, Lists()
      modifies NodeSet()`prev, NodeSet()`next, NodeSet()`owner, NodeSet()`loops
      ensures Valid() && NodeSet() <= old(NodeSet())
      ensures Clocked(Abs(), startTime) == Check(Clocked(old(Abs()), old(startTime)), now, slotDuration)
      ensures fired == CheckFired(Clocked(old(Abs()), old(startTime)), now, slotDuration)
      ensures Unlinked(fired)
    {
      var traversed: nat := (now - startTime) / slotDuration;
      CheckQuotient(Clocked(Abs(), startTime), now, slotDuration, traversed);
      Rebase(traversed);
      fired := TurnTimes(traversed);
    }

    /** `e->n_loops_ = loops`, slot by slot. */
    method RelabelSlots(e: Node, loops: nat)
      requires ListsValid()
      modifies e`loops
      ensures e.loops == loops && ListsValid() && NodeSet() == old(NodeSet())
      ensures forall i :: 0 <= i < |slots| ==>
                EntriesOf(slots[i].Members) == RelabelSlot(old(EntriesOf(slots[i].Members)), e, loops)
      ensures e.owner == null ==>
                forall i :: 0 <= i < |slots| ==> EntriesOf(slots[i].Members) == old(EntriesOf(slots[i].Members))
    {
      if e.owner == null {
        forall i | 0 <= i < |slots| ensures e !in slots[i].Members {
          slots[i].NodesOwned();
        }
      }
      e.loops := loops;
      assert forall i :: 0 <= i < |slots| ==> slots[i].Nodes() == old(slots[i].Nodes());
      forall i | 0 <= i < |slots|
        ensures EntriesOf(slots[i].Members) == RelabelSlot(old(EntriesOf(slots[i].Members)), e, loops)
      {
        var ms := slots[i].Members;
        assert ms == old(slots[i].Members);
        var r, r0 := EntriesOf(ms), RelabelSlot(old(EntriesOf(ms)), e, loops);
        forall j | 0 <= j < |ms| ensures r[j] == r0[j] {
        }
      }
    }

    /** `slots_[p].push_back(e)`: appends `e` to slot `p` unless it already sits in a list. */
    method PushSlot(p: nat, e: Node)
      requires ListsValid() && p < |slots|
      modifies Lists(), NodeSet()`prev, NodeSet()`next, NodeSet()`owner, e`prev, e`next, e`owner
      ensures ListsValid()
      ensures slots[p].Nodes() == old(slots[p].Nodes()) + (if old(e.owner) == null then {e} else {})
      ensures old(e.owner) != null ==> e.owner == old(e.owner) && e.prev == old(e.prev) && e.next == old(e.next)
      ensures EntriesOf(slots[p].Members)
              == old(EntriesOf(slots[p].Members)) + (if old(e.owner) == null then [Entry(e, e.loops)] else [])
      ensures forall i :: 0 <= i < |slots| && i != p ==>
                slots[i].Nodes() == old(slots[i].Nodes())
                && EntriesOf(slots[i].Members) == old(EntriesOf(slots[i].Members))
    {
      var slot := slots[p];
      MembersInNodeSet();
      forall i | 0 <= i < |slots| && i != p
        ensures slots[i] != slot && slots[i].Nodes() !! slot.Nodes()
      {
        Disjoint(i, p);
      }
      if e.owner == null {
        forall i | 0 <= i < |slots| ensures e !in slots[i].Nodes() {
          slots[i].NodesOwned();
        }
      }
      Append(slot, e);
      forall i | 0 <= i < |slots| && i != p
        ensures slots[i].Valid() && slots[i].Nodes() == old(slots[i].Nodes())
      {
      }
      forall i | 0 <= i < |slots| && i != p
        ensures EntriesOf(slots[i].Members) == old(EntriesOf(slots[i].Members))
      {
      }
    }

    /** PushSlot, stated on the nodes of the wheel. */
    method PushNodes(p: nat, e: Node)
      requires ListsValid() && p < |slots|
      modifies Lists(), NodeSet()`prev, NodeSet()`next, NodeSet()`owner, e`prev, e`next, e`owner
      ensures ListsValid() && e.loops == old(e.loops)
      ensures old(e.owner) != null ==> e.owner == old(e.owner) && e.prev == old(e.prev) && e.next == old(e.next)
      ensures NodeSet() <= old(NodeSet()) + (if old(e.owner) == null then {e} else {})
      ensures EntriesOf(slots[p].Members)
              == old(EntriesOf(slots[p].Members)) + (if old(e.owner) == null then [Entry(e, e.loops)] else [])
      ensures forall i :: 0 <= i < |slots| && i != p ==>
                EntriesOf(slots[i].Members) == old(EntriesOf(slots[i].Members))
    {
      ghost var added := if e.owner == null then {e} else {};
      MembersInNodeSet();
      PushSlot(p, e);
      forall n | n in NodeSet() ensures n in old(NodeSet()) + added {
        var i :| 0 <= i < |slots| && n in slots[i].Nodes();
        assert n in old(slots[i].Nodes()) + added;
      }
    }

    /** PushSlot, stated on the whole wheel. */
    method Enqueue(p: nat, e: Node)
      requires ListsValid() && cursor < |slots| && p < |slots|
      modifies Lists(), NodeSet()`prev, NodeSet()`next, NodeSet()`owner, e`prev, e`next, e`owner
      ensures ListsValid() && e.loops == old(e.loops)
      ensures old(e.owner) != null ==> e.owner == old(e.owner) && e.prev == old(e.prev) && e.next == old(e.next)
      ensures NodeSet() <= old(NodeSet()) + (if old(e.owner) == null then {e} else {})
      ensures SlotsFrom(0)
              == old(SlotsFrom(0))[p := old(SlotsFrom(0))[p] + (if old(e.owner) == null then [Entry(e, e.loops)] else [])]
    {
      ghost var tail := if e.owner == null then [Entry(e, e.loops)] else [];
      ghost var S := SlotsFrom(0);
      PushNodes(p, e);
      ghost var S1 := SlotsFrom(0);
      assert S1[p] == EntriesOf(slots[p].Members) && S[p] == old(EntriesOf(slots[p].Members));
      forall i | 0 <= i < |slots| && i != p
        ensures S1[i] == S[i]
      {
        assert S1[i] == EntriesOf(slots[i].Members);
        assert S[i] == old(EntriesOf(slots[i].Members));
      }
      UpdateAt(S1, S, p, S[p] + tail);
    }

    /** `e->n_loops_ = loops`: relabels `e` wherever it sits in the wheel, and changes nothing if it sits in none. */
    method SetLoops(e: Node, loops: nat)
      requires ListsValid() && cursor < |slots|
      modifies e`loops
      ensures e.loops == loops && ListsValid() && NodeSet() == old(NodeSet())
      ensures Abs() == Relabel(old(Abs()), e, loops)
      ensures e.owner == null ==> Abs() == old(Abs())
    {
      ghost var S := SlotsFrom(0);
      RelabelSlots(e, loops);
      ghost var S1, R := SlotsFrom(0), Relabel(old(Abs()), e, loops).slots;
      forall i | 0 <= i < |slots|
        ensures S1[i] == R[i] && (e.owner == null ==> S1[i] == S[i])
      {
        assert S1[i] == EntriesOf(slots[i].Members);
        assert S[i] == old(EntriesOf(slots[i].Members));
      }
    }

    /**
     * The last two lines of `publish`: set the loop count of `e`, then push it
     * onto slot `p`, where `p` and `loops` are what publish computes from `timeDiff`.
     */
    method PlaceIn(p: nat, e: Node, loops: nat, ghost timeDiff: nat)
      requires Valid() && p == (cursor + timeDiff / slotDuration) % |slots|
      requires loops == timeDiff / loopDuration
      modifies Lists(), NodeSet()`prev, NodeSet()`next, NodeSet()`owner, e`loops, e`prev, e`next, e`owner
      ensures Valid() && e.loops == loops
      ensures old(e.owner) != null ==> e.owner == old(e.owner) && e.prev == old(e.prev) && e.next == old(e.next)
      ensures old(e.owner) == null ==> NodeSet() <= old(NodeSet()) + {e} && Abs() == Place(old(Abs()), e, timeDiff, slotDuration)
      ensures old(e.owner) != null ==> NodeSet() <= old(NodeSet()) && Abs() == Relabel(old(Abs()), e, loops)
    {
      ghost var A0 := Abs();
      PlaceAt(A0, e, timeDiff, slotDuration, p, loops);
      ghost var free := e.owner == null;
      SetLoops(e, loops);
      assert e.owner == old(e.owner) && e.prev == old(e.prev) && e.next == old(e.next);
      ghost var A1 := Abs();
      Enqueue(p, e);
      assert Abs().cursor == A1.cursor;
      if free {
        assert A1 == A0;
        assert SlotsFrom(0) == A0.slots[p := A0.slots[p] + [Entry(e, loops)]];
      } else {
        assert A1.slots[p] + [] == A1.slots[p];
        assert A1.slots[p := A1.slots[p]] == A1.slots;
      }
    }

    /**
     * `publish(e, deadline)`: file `e` in the slot `deadline` falls in,
     * counted from the cursor, with the whole revolutions still to go as its
     * loop count. An element already in a list gets the new loop count but
     * stays where it is, since push_back refuses it.
     */
    method Publish(e: Node, deadline: nat)
      requires Valid() && startTime <= deadline
      modifies Lists(), NodeSet()`prev, NodeSet()`next, NodeSet()`owner, e`loops, e`prev, e`next, e`owner
      ensures Valid() && e.loops == (deadline - old(startTime)) / loopDuration
      ensures old(e.owner) != null ==> e.owner == old(e.owner) && e.prev == old(e.prev) && e.next == old(e.next)
      ensures old(e.owner) == null ==>
                && NodeSet() <= old(NodeSet()) + {e}
                && Abs() == Place(old(Abs()), e, deadline - old(startTime), slotDuration)
      ensures old(e.owner) != null ==> NodeSet() <= old(NodeSet()) && Abs() == Relabel(old(Abs()), e, e.loops)
    {
      var timeDiff: nat := deadline - startTime;
      var slotsAhead: nat := timeDiff / slotDuration;
      var p := (cursor + slotsAhead) % |slots|;
      var loops: nat := timeDiff / loopDuration;
      PlaceIn(p, e, loops, timeDiff);
    }
  }
}
