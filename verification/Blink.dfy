/** The fish animation's blinking characters: a linked list threaded through a fixed pool, and a per-character timer. */
module Blink {
  import opened Common

  const SLOTS: nat := 2000
  const NIL: int := -1

  /** A pool entry; location 0 marks it free. `next` is the index of the next entry, or NIL. */
  datatype Blinker = Blinker(
    location: nat, onChar: byte, offChar: byte, onLength: nat, offLength: nat, countdown: nat, on: bool, next: int)

  const FREE := Blinker(0, 0, 0, 0, 0, 0, false, NIL)

  // ---------------------------------------------------------------- the list as a value

  ghost predicate NoDup(order: seq<nat>) {
    forall i, j :: 0 <= i < j < |order| ==> order[i] != order[j]
  }

  function LinkAt(order: seq<nat>, k: nat): int {
    if k < |order| then order[k] else NIL
  }

  ghost predicate LinkOk(pool: seq<Blinker>, order: seq<nat>, k: nat)
    requires k < |order|
  {
    order[k] < |pool| && pool[order[k]].next == LinkAt(order, k + 1)
  }

  ghost predicate Bounded(pool: seq<Blinker>, order: seq<nat>) {
    forall k :: 0 <= k < |order| ==> order[k] < |pool|
  }

  /** Following links from head visits exactly the entries of `order`, each once, and stops. */
  ghost predicate Chain(pool: seq<Blinker>, head: int, order: seq<nat>) {
    && NoDup(order) && head == LinkAt(order, 0)
    && Bounded(pool, order)
    && (forall k :: 0 <= k < |order| ==> LinkOk(pool, order, k))
  }

  /** The chain's entries are exactly the entries in use. */
  ghost predicate Lists(pool: seq<Blinker>, head: int, order: seq<nat>) {
    && Chain(pool, head, order)
    && (forall i :: i in order ==> 1 <= pool[i].location < SLOTS)
    && (forall i :: 0 <= i < |pool| && pool[i].location != 0 ==> i in order)
  }

  /** The first entry marked free, |pool| when there is none. */
  ghost function FirstFree(pool: seq<Blinker>): (r: nat)
    ensures r <= |pool| && (r < |pool| ==> pool[r].location == 0)
    ensures forall i :: 0 <= i < r ==> pool[i].location != 0
  {
    if pool == [] || pool[0].location == 0 then 0 else 1 + FirstFree(pool[1..])
  }

  lemma FirstFreeUnique(pool: seq<Blinker>, r: nat)
    requires r <= |pool| && (r < |pool| ==> pool[r].location == 0)
    requires forall i :: 0 <= i < r ==> pool[i].location != 0
    ensures FirstFree(pool) == r
  {
  }

  ghost function Indices(n: nat): (s: set<nat>)
    ensures forall i: nat :: i in s <==> i < n
    ensures |s| == n
  {
    if n == 0 then {} else Indices(n - 1) + {n - 1}
  }

  ghost function Entries(order: seq<nat>): set<nat> {
    set i | i in order
  }

  lemma {:induction false} DistinctCount(order: seq<nat>)
    requires NoDup(order)
    ensures |Entries(order)| == |order|
  {
    if order != [] {
      var n := |order| - 1;
      DistinctCount(order[..n]);
      assert order == order[..n] + [order[n]];
      assert Entries(order) == Entries(order[..n]) + {order[n]};
    }
  }

  lemma SubsetSize(a: set<nat>, b: set<nat>)
    requires a <= b
    ensures |a| <= |b| && (|a| == |b| ==> a == b)
  {
    assert b == a + (b - a);
  }

  /** Distinct indices below n are at most n, and with n of them every index is there. */
  lemma Pigeonhole(order: seq<nat>, n: nat)
    requires NoDup(order) && forall k :: 0 <= k < |order| ==> order[k] < n
    ensures |order| <= n && (|order| == n <==> Entries(order) == Indices(n))
  {
    DistinctCount(order);
    assert forall i <- order :: i < n;
    assert Entries(order) <= Indices(n);
    SubsetSize(Entries(order), Indices(n));
  }

  /** No free entry is left exactly when every entry of the pool is listed. */
  lemma FullMeansAllListed(pool: seq<Blinker>, head: int, order: seq<nat>)
    requires Lists(pool, head, order)
    ensures FirstFree(pool) == |pool| <==> |order| == |pool|
  {
    Pigeonhole(order, |pool|);
    var f := FirstFree(pool);
    if f == |pool| {
      assert Entries(order) == Indices(|pool|);
    } else {
      assert f !in order && f in Indices(|pool|);
    }
  }

  // ---------------------------------------------------------------- adding and removing

  /** The entry an add stores: switched on, with its whole on-time ahead. */
  function Stored(b: Blinker, head: int): Blinker {
    b.(on := true, countdown := b.onLength, next := head)
  }

  ghost function AfterAdd(pool: seq<Blinker>, head: int, b: Blinker): seq<Blinker>
    requires FirstFree(pool) < |pool|
  {
    pool[FirstFree(pool) := Stored(b, head)]
  }

  lemma AddKeepsChain(pool: seq<Blinker>, head: int, order: seq<nat>, f: nat, b: Blinker)
    requires Chain(pool, head, order) && f < |pool| && f !in order
    ensures Chain(pool[f := Stored(b, head)], f, [f] + order)
  {
    var o, pool' := [f] + order, pool[f := Stored(b, head)];
    forall k | 0 <= k < |o|
      ensures o[k] < |pool'| && LinkOk(pool', o, k)
    {
      if k > 0 {
        assert LinkOk(pool, order, k - 1) && o[k] == order[k - 1];
      }
    }
  }

  lemma AddKeepsList(pool: seq<Blinker>, head: int, order: seq<nat>, b: Blinker)
    requires Lists(pool, head, order) && FirstFree(pool) < |pool| && 1 <= b.location < SLOTS
    ensures Lists(AfterAdd(pool, head, b), FirstFree(pool), [FirstFree(pool)] + order)
  {
    var f, pool' := FirstFree(pool), AfterAdd(pool, head, b);
    var o := [f] + order;
    assert f !in order;
    AddKeepsChain(pool, head, order, f, b);
    assert forall i :: i in o <==> i == f || i in order;
  }

  /** An add keeps the list a list exactly when the location is not 0. */
  lemma AddKeepsListIff(pool: seq<Blinker>, head: int, order: seq<nat>, b: Blinker)
    requires Lists(pool, head, order) && FirstFree(pool) < |pool| && b.location < SLOTS
    ensures (exists o :: Lists(AfterAdd(pool, head, b), FirstFree(pool), o)) <==> b.location != 0
  {
    var f, pool' := FirstFree(pool), AfterAdd(pool, head, b);
    if b.location != 0 {
      AddKeepsList(pool, head, order, b);
    } else {
      forall o
        ensures !Lists(pool', f, o)
      {
        assert LinkAt(o, 0) == f ==> o != [] && pool'[o[0]].location == 0;
      }
    }
  }

  /** After an add at location 0 the next add takes the same entry and links it to itself. */
  lemma ZeroLocationLoops(pool: seq<Blinker>, head: int, zero: Blinker, b: Blinker)
    requires FirstFree(pool) < |pool| && zero.location == 0
    ensures
      var f, once := FirstFree(pool), AfterAdd(pool, head, zero);
      FirstFree(once) == f && AfterAdd(once, f, b)[f].next == f
  {
    var f, once := FirstFree(pool), AfterAdd(pool, head, zero);
    FirstFreeUnique(once, f);
  }

  /** The position in the list of the first entry with a given location, |order| when there is none. */
  ghost function Find(pool: seq<Blinker>, order: seq<nat>, location: nat): (r: nat)
    requires forall k :: 0 <= k < |order| ==> order[k] < |pool|
    ensures r <= |order| && (r < |order| ==> pool[order[r]].location == location)
    ensures forall k :: 0 <= k < r ==> pool[order[k]].location != location
  {
    if order == [] || pool[order[0]].location == location then 0 else 1 + Find(pool, order[1..], location)
  }

  lemma {:induction false} FindFrom(pool: seq<Blinker>, order: seq<nat>, location: nat, r: nat)
    requires forall k :: 0 <= k < |order| ==> order[k] < |pool|
    requires r <= |order| && (r < |order| ==> pool[order[r]].location == location)
    requires forall k :: 0 <= k < r ==> pool[order[k]].location != location
    ensures Find(pool, order, location) == r
  {
    var f := Find(pool, order, location);
    assert f < |order| ==> pool[order[f]].location == location;
    assert r < |order| ==> pool[order[r]].location == location;
  }

  ghost function Without(order: seq<nat>, p: nat): seq<nat>
    requires p < |order|
  {
    order[..p] + order[p + 1..]
  }

  /** The pool after entry order[p] is unlinked from its predecessor and cleared. */
  ghost function AfterRemove(pool: seq<Blinker>, order: seq<nat>, p: nat): (r: seq<Blinker>)
    requires p < |order| && forall k :: 0 <= k < |order| ==> order[k] < |pool|
    ensures |r| == |pool|
  {
    var linked := if p == 0 then pool else pool[order[p - 1] := pool[order[p - 1]].(next := pool[order[p]].next)];
    linked[order[p] := FREE]
  }

  ghost function HeadAfterRemove(pool: seq<Blinker>, head: int, order: seq<nat>, p: nat): int
    requires p < |order| && order[p] < |pool|
  {
    if p == 0 then pool[order[0]].next else head
  }

  lemma RemoveKeepsChain(pool: seq<Blinker>, head: int, order: seq<nat>, p: nat)
    requires Chain(pool, head, order) && p < |order|
    ensures Chain(AfterRemove(pool, order, p), HeadAfterRemove(pool, head, order, p), Without(order, p))
  {
    var pool', o := AfterRemove(pool, order, p), Without(order, p);
    assert forall k :: 0 <= k < |o| ==> o[k] == if k < p then order[k] else order[k + 1];
    assert LinkOk(pool, order, p);
    forall k | 0 <= k < |o|
      ensures o[k] < |pool'| && LinkOk(pool', o, k)
    {
      RemoveKeepsLink(pool, head, order, p, k);
    }
  }

  lemma RemoveKeepsLink(pool: seq<Blinker>, head: int, order: seq<nat>, p: nat, k: nat)
    requires Chain(pool, head, order) && p < |order| && k < |order| - 1
    ensures LinkOk(AfterRemove(pool, order, p), Without(order, p), k)
  {
    var o, j := Without(order, p), if k < p then k else k + 1;
    assert o[k] == order[j] && (k + 1 < |o| ==> o[k + 1] == if k + 1 < p then order[k + 1] else order[k + 2]);
    assert LinkOk(pool, order, j) && LinkOk(pool, order, p);
    assert order[j] != order[p] && (p > 0 && j != p - 1 ==> order[j] != order[p - 1]);
  }

  /** Removing the p-th entry keeps the order of the others and frees exactly that entry. */
  lemma RemoveKeepsList(pool: seq<Blinker>, head: int, order: seq<nat>, p: nat)
    requires Lists(pool, head, order) && p < |order|
    ensures Lists(AfterRemove(pool, order, p), HeadAfterRemove(pool, head, order, p), Without(order, p))
  {
    var o := Without(order, p);
    RemoveKeepsChain(pool, head, order, p);
    WithoutMeans(order, p);
    assert p > 0 ==> order[p - 1] in order;
    assert order[p] in order;
  }

  lemma WithoutMeans(order: seq<nat>, p: nat)
    requires NoDup(order) && p < |order|
    ensures forall i :: i in Without(order, p) <==> i in order && i != order[p]
  {
    assert order == order[..p] + [order[p]] + order[p + 1..];
  }

  // ---------------------------------------------------------------- the list's contents

  /** The listed entries in list order, without their links. */
  ghost function Items(pool: seq<Blinker>, order: seq<nat>): (r: seq<Blinker>)
    requires Bounded(pool, order)
    ensures |r| == |order|
  {
    seq(|order|, k requires 0 <= k < |order| => pool[order[k]].(next := NIL))
  }

  ghost function DropFirst(items: seq<Blinker>, location: nat): seq<Blinker> {
    if items == [] then []
    else if items[0].location == location then items[1..]
    else [items[0]] + DropFirst(items[1..], location)
  }

  lemma ItemsPush(pool: seq<Blinker>, order: seq<nat>, f: nat, e: Blinker)
    requires Bounded(pool, order) && f < |pool| && f !in order
    ensures Items(pool[f := e], [f] + order) == [e.(next := NIL)] + Items(pool, order)
  {
    var l, r := Items(pool[f := e], [f] + order), [e.(next := NIL)] + Items(pool, order);
    forall k | 0 <= k < |l|
      ensures l[k] == r[k]
    {
      if k > 0 {
        assert ([f] + order)[k] == order[k - 1];
      }
    }
  }

  lemma ItemsAfterAdd(pool: seq<Blinker>, head: int, order: seq<nat>, b: Blinker)
    requires Lists(pool, head, order) && FirstFree(pool) < |pool|
    ensures Items(AfterAdd(pool, head, b), [FirstFree(pool)] + order) == [Stored(b, NIL)] + Items(pool, order)
  {
    hide Items;
    ItemsPush(pool, order, FirstFree(pool), Stored(b, head));
  }

  lemma {:induction false} DropFirstAt(items: seq<Blinker>, location: nat, p: nat)
    requires p < |items| && items[p].location == location
    requires forall k :: 0 <= k < p ==> items[k].location != location
    ensures DropFirst(items, location) == items[..p] + items[p + 1..]
  {
    if p > 0 {
      DropFirstAt(items[1..], location, p - 1);
      assert items[..p] == [items[0]] + items[1..][..p - 1];
    }
  }

  lemma {:induction false} DropFirstNone(items: seq<Blinker>, location: nat)
    requires forall k :: 0 <= k < |items| ==> items[k].location != location
    ensures DropFirst(items, location) == items
  {
    if items != [] {
      DropFirstNone(items[1..], location);
    }
  }

  lemma ItemsAfterRemove(pool: seq<Blinker>, head: int, order: seq<nat>, p: nat)
    requires Lists(pool, head, order) && p < |order|
    ensures Bounded(pool, Without(order, p))
    ensures Items(AfterRemove(pool, order, p), Without(order, p))
         == Items(pool, order)[..p] + Items(pool, order)[p + 1..]
  {
    var o := Without(order, p);
    var l, r := Items(AfterRemove(pool, order, p), o), Items(pool, order)[..p] + Items(pool, order)[p + 1..];
    forall k | 0 <= k < |l|
      ensures l[k] == r[k]
    {
      var j := if k < p then k else k + 1;
      assert o[k] == order[j] && order[j] != order[p];
    }
  }

  lemma ItemsFound(pool: seq<Blinker>, head: int, order: seq<nat>, location: nat)
    requires Lists(pool, head, order)
    ensures
      var p := Find(pool, order, location);
      DropFirst(Items(pool, order), location)
      == if p < |order| then Items(pool, order)[..p] + Items(pool, order)[p + 1..] else Items(pool, order)
  {
    var p, items := Find(pool, order, location), Items(pool, order);
    assert forall k :: 0 <= k < |order| ==> items[k].location == pool[order[k]].location;
    if p < |order| {
      DropFirstAt(items, location, p);
    } else {
      DropFirstNone(items, location);
    }
  }

  // ---------------------------------------------------------------- the timer

  /** How many ticks a length lasts: the countdown is compared as a signed 16-bit number after its decrement. */
  function Ticks(length: nat): (t: nat)
    ensures t >= 1
  {
    if 1 <= length <= 32768 then length else 1
  }

  predicate Short(b: Blinker) {
    b.onLength < 65536 && b.offLength < 65536 && b.countdown < 65536
  }

  /** One tick of one entry. */
  function Tick(b: Blinker): Blinker {
    var c := (b.countdown + 65535) % 65536;
    if 0 < c < 32768 then b.(countdown := c)
    else if b.on then b.(on := false, countdown := b.offLength)
    else b.(on := true, countdown := b.onLength)
  }

  /** The character an entry's cell should show. */
  function Face(b: Blinker): byte {
    if b.on then b.onChar else b.offChar
  }

  function TickTimes(b: Blinker, k: nat): Blinker {
    if k == 0 then b else Tick(TickTimes(b, k - 1))
  }

  /** The entry r ticks into its cycle. */
  function InCycle(b: Blinker, r: int): Blinker
    requires 0 <= r < Ticks(b.onLength) + Ticks(b.offLength) && Short(b)
  {
    if r < Ticks(b.onLength) then b.(on := true, countdown := b.onLength - Min(r, b.onLength))
    else b.(on := false, countdown := b.offLength - Min(r - Ticks(b.onLength), b.offLength))
  }

  lemma NextRemainder(k: nat, n: nat)
    requires n > 0
    ensures (k + 1) % n == if k % n + 1 == n then 0 else k % n + 1
  {
    var q, r, q', r' := k / n, k % n, (k + 1) / n, (k + 1) % n;
    assert k == q * n + r && k + 1 == q' * n + r';
    if r + 1 == n {
      assert (q + 1) * n == q * n + n;
      SameQuotient(q + 1, 0, q', r', n);
    } else {
      SameQuotient(q, r + 1, q', r', n);
    }
  }

  /** One tick moves an entry one step along its cycle. */
  lemma TickInCycle(b: Blinker, r: int)
    requires Short(b) && 0 <= r < Ticks(b.onLength) + Ticks(b.offLength)
    ensures Tick(InCycle(b, r)) == InCycle(b, if r + 1 == Ticks(b.onLength) + Ticks(b.offLength) then 0 else r + 1)
  {
  }

  lemma CycleStart(b: Blinker)
    requires Short(b) && b.on && b.countdown == b.onLength
    ensures InCycle(b, 0) == b
  {
  }

  lemma {:induction false} TimerClosedForm(b: Blinker, k: nat)
    requires Short(b) && b.on && b.countdown == b.onLength
    ensures TickTimes(b, k) == InCycle(b, k % (Ticks(b.onLength) + Ticks(b.offLength)))
  {
    hide Ticks, Tick, InCycle;
    var n := Ticks(b.onLength) + Ticks(b.offLength);
    if k > 0 {
      TimerClosedForm(b, k - 1);
      NextRemainder(k - 1, n);
      TickInCycle(b, (k - 1) % n);
    } else {
      assert 0 % n == 0;
      CycleStart(b);
    }
  }

  /** After k ticks an entry is on exactly when k modulo the cycle falls in its on-time, for every pair of lengths. */
  lemma OnExactlyWhen(b: Blinker, k: nat)
    requires Short(b) && b.on && b.countdown == b.onLength
    ensures TickTimes(b, k).on <==> k % (Ticks(b.onLength) + Ticks(b.offLength)) < Ticks(b.onLength)
  {
    TimerClosedForm(b, k);
  }

  predicate Plain(length: nat) {
    1 <= length <= 32768
  }

  /** The lengths themselves give the on-time, for every number of ticks, exactly when both lie in 1..32768. */
  lemma PlainLengthsIff(b: Blinker)
    requires Short(b) && b.on && b.countdown == b.onLength && b.onLength + b.offLength > 0
    ensures (forall k: nat :: TickTimes(b, k).on <==> k % (b.onLength + b.offLength) < b.onLength)
            <==> Plain(b.onLength) && Plain(b.offLength)
  {
    if Plain(b.onLength) && Plain(b.offLength) {
      forall k: nat
        ensures TickTimes(b, k).on <==> k % (b.onLength + b.offLength) < b.onLength
      {
        OnExactlyWhen(b, k);
      }
    } else {
      var k := if b.onLength == 0 then 0 else if !Plain(b.onLength) then 1
               else if b.offLength == 0 then b.onLength else b.onLength + 1;
      OnExactlyWhen(b, k);
      WitnessRemainders(b.onLength, b.offLength, k);
      assert !(TickTimes(b, k).on <==> k % (b.onLength + b.offLength) < b.onLength);
    }
  }

  lemma WitnessRemainders(on: nat, off: nat, k: nat)
    requires on + off > 0 && !(Plain(on) && Plain(off))
    requires k == if on == 0 then 0 else if !Plain(on) then 1 else if off == 0 then on else on + 1
    ensures !(k % (Ticks(on) + Ticks(off)) < Ticks(on) <==> k % (on + off) < on)
  {
    var n, m := Ticks(on) + Ticks(off), on + off;
    if on == 0 {
      Remainder(k, n);
      Remainder(k, m);
    } else if !Plain(on) {
      Remainder(k, n);
      Remainder(k, m);
    } else if off == 0 {
      Remainder(k, n);
      FullTurn(m);
    } else {
      FullTurn(n);
      Remainder(k, m);
    }
  }

  lemma Remainder(r: nat, n: nat)
    requires r < n
    ensures r % n == r
  {
    Divide(r, 0, n, r);
  }

  lemma FullTurn(n: nat)
    requires n > 0
    ensures n % n == 0
  {
    Divide(n, 1, n, 0);
  }

  // ---------------------------------------------------------------- a plain list and its screen

  /** A list of blinkers and the characters on the screen. */
  datatype View = View(items: seq<Blinker>, screen: seq<byte>)

  datatype Op = AddOp(b: Blinker) | RemoveOp(location: nat) | TickOp

  ghost function TickItems(items: seq<Blinker>): (r: seq<Blinker>)
    ensures |r| == |items|
  {
    seq(|items|, k requires 0 <= k < |items| => Tick(items[k]))
  }

  /** The screen after one blinker's tick: redrawn when it flips. */
  ghost function DrawTick(b: Blinker, screen: seq<byte>): (r: seq<byte>)
    ensures |r| == |screen|
  {
    if Tick(b).on == b.on || b.location >= |screen| then screen else screen[b.location := Face(Tick(b))]
  }

  /** ... and after the ticks of a list, first to last. */
  ghost function DrawTicks(items: seq<Blinker>, screen: seq<byte>): (r: seq<byte>)
    ensures |r| == |screen|
  {
    if items == [] then screen else DrawTick(items[|items| - 1], DrawTicks(items[..|items| - 1], screen))
  }

  /** What adding, removing and ticking should do to a plain list that holds at most 2000 entries, and to its screen. */
  ghost function Apply(v: View, op: Op): View
    requires |v.screen| == SLOTS
  {
    match op
    case AddOp(b) =>
      if b.location < SLOTS && |v.items| < SLOTS
      then View([Stored(b, NIL)] + v.items, v.screen[b.location := b.onChar]) else v
    case RemoveOp(location) => v.(items := DropFirst(v.items, location % 65536))
    case TickOp => View(TickItems(v.items), DrawTicks(v.items, v.screen))
  }

  ghost function ApplyAll(v: View, ops: seq<Op>): (r: View)
    requires |v.screen| == SLOTS
    ensures |r.screen| == SLOTS
    decreases |ops|
  {
    if ops == [] then v else ApplyAll(Apply(v, ops[0]), ops[1..])
  }

  /** The blinkers at a location, in list order. */
  ghost function At(items: seq<Blinker>, location: nat): seq<Blinker> {
    if items == [] then []
    else
      At(items[..|items| - 1], location)
      + if items[|items| - 1].location == location then [items[|items| - 1]] else []
  }

  lemma {:induction false} AtPush(b: Blinker, items: seq<Blinker>, location: nat)
    ensures At([b] + items, location) == (if b.location == location then [b] else []) + At(items, location)
  {
    if items == [] {
      assert [b] + items == [b];
    } else {
      var n := |items| - 1;
      assert ([b] + items)[..n + 1] == [b] + items[..n] && ([b] + items)[n + 1] == items[n];
      AtPush(b, items[..n], location);
    }
  }

  lemma {:induction false} AtDropFirst(items: seq<Blinker>, gone: nat, location: nat)
    requires gone != location
    ensures At(DropFirst(items, gone), location) == At(items, location)
  {
    if items != [] {
      assert items == [items[0]] + items[1..];
      AtPush(items[0], items[1..], location);
      AtDropFirst(items[1..], gone, location);
      AtPush(items[0], DropFirst(items[1..], gone), location);
    }
  }

  lemma AtSnoc(items: seq<Blinker>, b: Blinker, location: nat)
    ensures At(items + [b], location) == At(items, location) + if b.location == location then [b] else []
  {
    assert (items + [b])[..|items|] == items;
  }

  lemma TickItemsSnoc(items: seq<Blinker>, b: Blinker)
    ensures TickItems(items + [b]) == TickItems(items) + [Tick(b)]
  {
  }

  /** A tick advances the blinkers at a location. */
  lemma {:induction false} AtTickItems(items: seq<Blinker>, location: nat)
    ensures At(TickItems(items), location) == TickItems(At(items, location))
  {
    hide Tick, At, TickItems;
    if items != [] {
      var a, b := items[..|items| - 1], items[|items| - 1];
      assert items == a + [b];
      AtTickItems(a, location);
      TickItemsSnoc(a, b);
      AtSnoc(a, b, location);
      AtSnoc(TickItems(a), Tick(b), location);
      TickItemsSnoc(At(a, location), b);
      TickKeepsLink(b);
      assert At(a, location) + [] == At(a, location) && At(TickItems(a), location) + [] == At(TickItems(a), location);
    } else {
      NoItems(location);
    }
  }

  lemma NoItems(location: nat)
    ensures At([], location) == [] && TickItems([]) == []
  {
  }

  /** The cell of a lone blinker that was correctly drawn stays so. */
  lemma {:induction false} DrawTicksAt(items: seq<Blinker>, screen: seq<byte>, location: nat)
    requires location < |screen|
    ensures At(items, location) == [] ==> DrawTicks(items, screen)[location] == screen[location]
    ensures |At(items, location)| == 1 && screen[location] == Face(At(items, location)[0]) ==>
      DrawTicks(items, screen)[location] == Face(Tick(At(items, location)[0]))
  {
    if items != [] {
      hide Tick, Face;
      var b := items[|items| - 1];
      DrawTicksAt(items[..|items| - 1], screen, location);
      DrawTickAt(b, DrawTicks(items[..|items| - 1], screen), location);
    }
  }

  lemma DrawTickAt(b: Blinker, screen: seq<byte>, location: nat)
    requires location < |screen|
    ensures b.location != location ==> DrawTick(b, screen)[location] == screen[location]
    ensures b.location == location && screen[location] == Face(b) ==> DrawTick(b, screen)[location] == Face(Tick(b))
  {
  }

  /** An operation that adds or removes nothing at the location. */
  ghost predicate QuietOp(op: Op, location: nat) {
    match op
    case AddOp(b) => b.location != location
    case RemoveOp(other) => other % 65536 != location
    case TickOp => true
  }

  ghost predicate Quiet(ops: seq<Op>, location: nat) {
    forall i :: 0 <= i < |ops| ==> QuietOp(ops[i], location)
  }

  ghost function TickCount(ops: seq<Op>): nat {
    if ops == [] then 0 else (if ops[0].TickOp? then 1 else 0) + TickCount(ops[1..])
  }

  lemma {:induction false} TickFirst(b: Blinker, k: nat)
    ensures TickTimes(Tick(b), k) == TickTimes(b, k + 1)
  {
    if k > 0 {
      TickFirst(b, k - 1);
    }
  }

  /** One operation elsewhere, or a tick, keeps a lone and correctly drawn blinker so. */
  lemma LoneStep(v: View, op: Op, location: nat, b: Blinker)
    requires |v.screen| == SLOTS && location < SLOTS && QuietOp(op, location)
    requires At(v.items, location) == [b] && v.screen[location] == Face(b)
    ensures
      var b', v' := if op.TickOp? then Tick(b) else b, Apply(v, op);
      At(v'.items, location) == [b'] && v'.screen[location] == Face(b')
  {
    match op
    case AddOp(c) => AtPush(Stored(c, NIL), v.items, location);
    case RemoveOp(other) => AtDropFirst(v.items, other % 65536, location);
    case TickOp =>
      AtTickItems(v.items, location);
      DrawTicksAt(v.items, v.screen, location);
  }

  lemma {:induction false} LoneRun(v: View, ops: seq<Op>, location: nat, b: Blinker)
    requires |v.screen| == SLOTS && location < SLOTS && Quiet(ops, location)
    requires At(v.items, location) == [b] && v.screen[location] == Face(b)
    ensures
      var b', v' := TickTimes(b, TickCount(ops)), ApplyAll(v, ops);
      At(v'.items, location) == [b'] && v'.screen[location] == Face(b')
    decreases |ops|
  {
    if ops != [] {
      hide Apply, At, Tick;
      LoneStep(v, ops[0], location, b);
      LoneRun(Apply(v, ops[0]), ops[1..], location, if ops[0].TickOp? then Tick(b) else b);
      TickFirst(b, TickCount(ops[1..]));
    }
  }

  /** A blinker added where there is none shows, over every run of ticks and of adds and removes elsewhere, the
      character its cycle calls for after that many ticks. */
  lemma BlinkerShows(v: View, b: Blinker, ops: seq<Op>)
    requires |v.screen| == SLOTS && |v.items| < SLOTS && b.location < SLOTS && At(v.items, b.location) == []
    requires b.onLength < 65536 && b.offLength < 65536 && Quiet(ops, b.location)
    ensures ApplyAll(v, [AddOp(b)] + ops).screen[b.location] ==
      if TickCount(ops) % (Ticks(b.onLength) + Ticks(b.offLength)) < Ticks(b.onLength) then b.onChar else b.offChar
  {
    hide Ticks, Tick, At;
    var run, e := [AddOp(b)] + ops, Stored(b, NIL);
    assert run[1..] == ops;
    AtPush(e, v.items, b.location);
    LoneRun(Apply(v, AddOp(b)), ops, b.location, e);
    OnExactlyWhen(e, TickCount(ops));
    SameCharacters(e, TickCount(ops));
  }

  lemma {:induction false} SameCharacters(b: Blinker, k: nat)
    ensures TickTimes(b, k).onChar == b.onChar && TickTimes(b, k).offChar == b.offChar
  {
    if k > 0 {
      SameCharacters(b, k - 1);
    }
  }

  // ---------------------------------------------------------------- the list in memory

  class Blinkers {
    const pool: array<Blinker>
    /** The character bytes of the text screen. */
    const screen: array<byte>
    var head: int
    ghost var order: seq<nat>

    ghost predicate Sized()
      reads this
    {
      pool.Length == SLOTS && screen.Length == SLOTS
    }

    ghost predicate Valid()
      reads this, pool
    {
      Sized() && Lists(pool[..], head, order)
    }

    /** The listed entries, first to last. */
    ghost function Contents(): seq<Blinker>
      requires Valid()
      reads this, pool
    {
      Items(pool[..], order)
    }

    /** The list and its screen. */
    ghost function Shown(): View
      requires Valid()
      reads this, pool, screen
    {
      View(Contents(), screen[..])
    }

    constructor (screen: array<byte>)
      requires screen.Length == SLOTS
      ensures Valid() && order == [] && this.screen == screen && fresh(pool)
    {
      pool := new Blinker[SLOTS](_ => FREE);
      this.screen := screen;
      head, order := NIL, [];
    }

    /** mp1_malloc: the first entry whose location is 0. */
    method Malloc() returns (slot: nat)
      requires Sized()
      ensures slot == FirstFree(pool[..])
    {
      for i := 0 to SLOTS
        invariant forall k :: 0 <= k < i ==> pool[k].location != 0
      {
        if pool[i].location == 0 {
          FirstFreeUnique(pool[..], i);
          return i;
        }
      }
      FirstFreeUnique(pool[..], SLOTS);
      return SLOTS;
    }

    /** mp1_ioctl_add: refuses a location off the screen and a full pool, otherwise puts the entry in front. */
    method Add(b: Blinker) returns (ok: bool)
      requires Sized()
      modifies this`head, pool, screen
      ensures ok <==> b.location < SLOTS && FirstFree(old(pool[..])) < SLOTS
      ensures !ok ==> pool[..] == old(pool[..]) && head == old(head) && screen[..] == old(screen[..])
      ensures ok ==>
        && pool[..] == AfterAdd(old(pool[..]), old(head), b) && head == FirstFree(old(pool[..]))
        && screen[..] == old(screen[..])[b.location := b.onChar]
    {
      if b.location >= SLOTS {
        return false;
      }
      var entry := b.(on := true, countdown := b.onLength);
      var slot := Malloc();
      if slot == SLOTS {
        return false;
      }
      pool[slot] := entry;
      pool[slot] := pool[slot].(next := head);
      head := slot;
      screen[b.location] := pool[slot].onChar;
      return true;
    }

    /** An add at a location from 1 on keeps the list; it fails only when the location is off the screen or all 2000
        entries are listed. */
    method AddListed(b: Blinker) returns (ok: bool)
      requires Valid() && b.location != 0
      modifies this, pool, screen
      ensures Valid()
      ensures ok <==> b.location < SLOTS && |old(order)| < SLOTS
      ensures order == if ok then [FirstFree(old(pool[..]))] + old(order) else old(order)
      ensures ok ==> pool[..] == AfterAdd(old(pool[..]), old(head), b)
      ensures Shown() == Apply(old(Shown()), AddOp(b))
    {
      hide Chain, Items;
      FullMeansAllListed(pool[..], head, order);
      ListedBound(pool[..], head, order);
      if b.location < SLOTS && FirstFree(pool[..]) < SLOTS {
        AddKeepsList(pool[..], head, order, b);
        ItemsAfterAdd(pool[..], head, order, b);
        order := [FirstFree(pool[..])] + order;
      }
      ok := Add(b);
    }

    /** mp1_find_helper: the first listed entry with the location's low 16 bits. */
    method FindHelper(location: nat) returns (r: int)
      requires Valid()
      ensures r == LinkAt(order, Find(pool[..], order, location % 65536))
    {
      r := head;
      ghost var k := 0;
      while r != NIL && pool[r].location != location % 65536
        invariant 0 <= k <= |order| && r == LinkAt(order, k)
        invariant forall j :: 0 <= j < k ==> pool[order[j]].location != location % 65536
        decreases |order| - k
      {
        assert LinkOk(pool[..], order, k);
        r := pool[r].next;
        k := k + 1;
      }
      FindFrom(pool[..], order, location % 65536, k);
    }

    /** mp1_ioctl_remove: deletes exactly the first match and keeps the order of the rest. */
    method Remove(location: nat) returns (ok: bool)
      requires Valid()
      modifies this, pool
      ensures Valid()
      ensures
        var p := Find(old(pool[..]), old(order), location % 65536);
        && (ok <==> p < |old(order)|)
        && (ok ==> order == Without(old(order), p) && pool[..] == AfterRemove(old(pool[..]), old(order), p))
        && (!ok ==> order == old(order) && pool[..] == old(pool[..]))
      ensures Shown() == Apply(old(Shown()), RemoveOp(location))
    {
      hide Items;
      ItemsFound(pool[..], head, order, location % 65536);
      var found := FindHelper(location);
      ghost var p := Find(pool[..], order, location % 65536);
      if found == NIL {
        return false;
      }
      RemoveKeepsList(pool[..], head, order, p);
      ItemsAfterRemove(pool[..], head, order, p);
      Unlink(found, p);
      order := Without(order, p);
      return true;
    }

    /** Finds the link that points at an entry, bypasses the entry, and clears it. */
    method Unlink(found: nat, ghost p: nat)
      requires Valid() && p < |order| && order[p] == found
      modifies this`head, pool
      ensures pool[..] == AfterRemove(old(pool[..]), order, p)
      ensures head == HeadAfterRemove(old(pool[..]), old(head), order, p)
    {
      var prev := NIL;
      ghost var k := 0;
      while (if prev == NIL then head else pool[prev].next) != found
        invariant 0 <= k <= p && prev == (if k == 0 then NIL else order[k - 1])
        decreases p - k
      {
        assert k > 0 ==> LinkOk(pool[..], order, k - 1);
        assert LinkAt(order, k) == order[k];
        prev := if prev == NIL then head else pool[prev].next;
        k := k + 1;
      }
      assert k > 0 ==> LinkOk(pool[..], order, k - 1);
      assert k == p;
      if prev == NIL {
        head := pool[found].next;
      } else {
        pool[prev] := pool[prev].(next := pool[found].next);
      }
      pool[found] := FREE;
    }

    // -------------------------------------------------------------- ticking and whole runs

    /** Decrements one entry's countdown and, when it has run out, flips the entry and redraws it. */
    method TickEntry(i: nat)
      requires Sized() && i < SLOTS && pool[i].location < SLOTS
      modifies pool, screen
      ensures pool[..] == old(pool[..])[i := Tick(old(pool[i]))]
      ensures screen[..] == if pool[i].on == old(pool[i].on) then old(screen[..])
                            else old(screen[..])[pool[i].location := Face(pool[i])]
    {
      var b := pool[i];
      pool[i] := b.(countdown := (b.countdown + 65535) % 65536);
      if 0 < pool[i].countdown < 32768 {
        return;
      }
      if b.on {
        screen[b.location] := b.offChar;
        pool[i] := pool[i].(countdown := b.offLength);
      } else {
        screen[b.location] := b.onChar;
        pool[i] := pool[i].(countdown := b.onLength);
      }
      pool[i] := pool[i].(on := !b.on);
    }

    /** mp1_rtc_tasklet: walks the whole list once; every listed entry ticks and is redrawn when it flips, every other
        one is left alone. */
    method Tasklet()
      requires Valid()
      modifies pool, screen
      ensures Valid() && forall i :: 0 <= i < SLOTS ==>
        pool[i] == if i in order then Tick(old(pool[i])) else old(pool[i])
      ensures Shown() == Apply(old(Shown()), TickOp)
    {
      hide Items, Tick, DrawTicks;
      ghost var before, drawn := pool[..], screen[..];
      ghost var items := Items(before, order);
      NothingDrawn(items, drawn);
      var r := head;
      ghost var k := 0;
      while r != NIL
        invariant 0 <= k <= |order| && r == LinkAt(order, k)
        invariant Ticked(before, pool[..], order, k) && screen[..] == DrawTicks(items[..k], drawn)
        decreases |order| - k
      {
        assert LinkOk(before, order, k) && before[r].location < SLOTS && pool[r] == before[r];
        ghost var p := pool[..];
        TickEntry(r);
        TickKeepsLink(before[r]);
        DrawnMore(before, order, drawn, k);
        TickedMore(before, p, order, k);
        r := pool[r].next;
        k := k + 1;
      }
      assert items[..k] == items;
      TickedAll(before, pool[..], head, order);
      ItemsTicked(before, pool[..], order);
    }

    /** Every run of adds, removes and ticks behaves as on a plain list of at most 2000 entries with its screen. */
    method RunAll(ops: seq<Op>)
      requires Valid() && forall i :: 0 <= i < |ops| && ops[i].AddOp? ==> ops[i].b.location != 0
      modifies this, pool, screen
      ensures Valid() && Shown() == ApplyAll(old(Shown()), ops)
    {
      hide Lists, Items, Apply;
      for i := 0 to |ops|
        invariant Valid() && ApplyAll(Shown(), ops[i..]) == ApplyAll(old(Shown()), ops)
      {
        assert ops[i..][1..] == ops[i + 1..];
        match ops[i]
        case AddOp(b) => var _ := AddListed(b);
        case RemoveOp(location) => var _ := Remove(location);
        case TickOp => Tasklet();
      }
    }
  }

  /** The first k listed entries have ticked, nothing else has changed. */
  ghost predicate Ticked(before: seq<Blinker>, after: seq<Blinker>, order: seq<nat>, k: nat) {
    && |before| == |after| && k <= |order|
    && forall i :: 0 <= i < |before| ==> after[i] == if i in order[..k] then Tick(before[i]) else before[i]
  }

  lemma NothingDrawn(items: seq<Blinker>, screen: seq<byte>)
    ensures DrawTicks(items[..0], screen) == screen
  {
  }

  lemma TickKeepsLink(b: Blinker)
    ensures Tick(b).next == b.next && Tick(b).location == b.location
    ensures Tick(b.(next := NIL)) == Tick(b).(next := NIL)
  {
  }

  /** The next listed entry's tick is the next one drawn. */
  lemma DrawnMore(pool: seq<Blinker>, order: seq<nat>, screen: seq<byte>, k: nat)
    requires Bounded(pool, order) && k < |order| && pool[order[k]].location < |screen|
    ensures
      var items, b := Items(pool, order), pool[order[k]];
      DrawTicks(items[..k + 1], screen) ==
        if Tick(b).on == b.on then DrawTicks(items[..k], screen)
        else DrawTicks(items[..k], screen)[b.location := Face(Tick(b))]
  {
    var items := Items(pool, order);
    assert items[..k + 1][..k] == items[..k];
    TickKeepsLink(pool[order[k]]);
  }

  lemma ItemsTicked(before: seq<Blinker>, after: seq<Blinker>, order: seq<nat>)
    requires Bounded(before, order) && |before| == |after|
    requires forall i :: 0 <= i < |after| ==> after[i] == if i in order then Tick(before[i]) else before[i]
    ensures Items(after, order) == TickItems(Items(before, order))
  {
    hide Tick;
    forall k | 0 <= k < |order|
      ensures Items(after, order)[k] == Tick(Items(before, order)[k])
    {
      assert order[k] in order;
      TickKeepsLink(before[order[k]]);
    }
  }

  lemma TickedMore(before: seq<Blinker>, p: seq<Blinker>, order: seq<nat>, k: nat)
    requires Ticked(before, p, order, k) && k < |order| && NoDup(order) && order[k] < |before|
    ensures Ticked(before, p[order[k] := Tick(p[order[k]])], order, k + 1)
  {
    assert order[..k + 1] == order[..k] + [order[k]];
    assert order[k] !in order[..k];
  }

  lemma TickedAll(before: seq<Blinker>, after: seq<Blinker>, head: int, order: seq<nat>)
    requires Lists(before, head, order) && Ticked(before, after, order, |order|)
    ensures Lists(after, head, order)
    ensures forall i :: 0 <= i < |after| ==> after[i] == if i in order then Tick(before[i]) else before[i]
  {
    assert order[..|order|] == order;
    forall k | 0 <= k < |order|
      ensures LinkOk(after, order, k)
    {
      assert LinkOk(before, order, k);
    }
  }

  lemma ListedBound(pool: seq<Blinker>, head: int, order: seq<nat>)
    requires Lists(pool, head, order)
    ensures |order| <= |pool| && Bounded(pool, order)
  {
    Pigeonhole(order, |pool|);
  }
}
