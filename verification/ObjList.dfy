/** The cache of objects that are looked up by an id and renewed in batches (objlist.c). A batch
    asks for ids one after another; what it asked for moves to the front, and objects that are no
    longer asked for stay behind, to be found again or to be reused for new ids. */
module ObjList {
  import opened Sequences
  import opened Shut

  /** The ids that a batch keeps, in the order in which they are first asked for. */
  function Dedup(s: seq<int>): (d: seq<int>)
    ensures forall x :: x in d <==> x in s
  {
    if s == [] then [] else Noted(Dedup(s[..|s| - 1]), s[|s| - 1])
  }

  function Noted(d: seq<int>, x: int): seq<int> {
    if x in d then d else d + [x]
  }

  /** Where x is first in s. */
  function First(s: seq<int>, x: int): (i: nat)
    requires x in s
    ensures i < |s| && s[i] == x && x !in s[..i]
  {
    if s[0] == x then 0 else 1 + First(s[1..], x)
  }

  lemma FirstInPrefix(s: seq<int>, n: nat, x: int)
    requires n <= |s| && x in s[..n]
    ensures x in s && First(s[..n], x) == First(s, x)
  {
    var i, j := First(s[..n], x), First(s, x);
    assert s[i] == x;
  }

  /** Nothing is listed twice, and the order is that of the first occurrences. */
  lemma {:induction false} DedupOrder(s: seq<int>, i: nat, j: nat)
    requires i < j < |Dedup(s)|
    ensures Dedup(s)[i] in s && Dedup(s)[j] in s
    ensures First(s, Dedup(s)[i]) < First(s, Dedup(s)[j])
  {
    var n := |s| - 1;
    var d := Dedup(s[..n]);
    assert Dedup(s)[i] == d[i] && d[i] in s[..n];
    FirstInPrefix(s, n, d[i]);
    if j < |d| {
      DedupOrder(s[..n], i, j);
      FirstInPrefix(s, n, d[j]);
    } else {
      assert s[n] !in s[..n];
      assert First(s, s[n]) >= n;
    }
  }

  /** An object with its id, 0 if it has never been used, and its OHF_OLD flag. */
  class Obj {
    var id: int
    var aged: bool

    constructor ()
      ensures id == 0 && !aged
    {
      id, aged := 0, false;
    }
  }

  /** A slot of ol_data: the object that it points to, and what that object holds. */
  datatype Slot = Slot(obj: Obj, id: int, aged: bool)

  /** The list as a value. */
  datatype Cache = Cache(slots: seq<Slot>, tcur: nat, max: nat) {

    /** Slots from here on have never been used. */
    function Used(): nat {
      if tcur > max then tcur else max
    }

    ghost predicate SlotFits(i: nat)
      requires i < |slots|
    {
      && (slots[i].id != 0 <==> i < Used())
      && (slots[i].id == 0 ==> !slots[i].aged)
    }

    ghost predicate Differ(i: nat, j: nat)
      requires i < |slots| && j < |slots|
    {
      slots[i].obj != slots[j].obj && (slots[i].id != 0 ==> slots[i].id != slots[j].id)
    }

    /** No object is in two slots, and no id belongs to two objects. */
    ghost predicate Valid() {
      && Used() <= |slots|
      && (forall i: nat | i < |slots| :: SlotFits(i))
      && (forall i: nat, j: nat | i < |slots| && j < |slots| && i != j :: Differ(i, j))
    }

    /** The ids asked for so far in this batch. */
    function Live(): (ids: seq<int>)
      requires tcur <= |slots|
      ensures |ids| == tcur
    {
      seq(tcur, i requires 0 <= i < tcur => slots[i].id)
    }

    /** The first slot with this id, or the number of slots. */
    function Lookup(id: int): (k: nat)
      ensures k <= |slots| && (k < |slots| ==> slots[k].id == id)
      ensures forall i | 0 <= i < k :: slots[i].id != id
    {
      LookupFrom(id, 0)
    }

    function LookupFrom(id: int, from: nat): (k: nat)
      requires from <= |slots|
      ensures from <= k <= |slots| && (k < |slots| ==> slots[k].id == id)
      ensures forall i | from <= i < k :: slots[i].id != id
      decreases |slots| - from
    {
      if from == |slots| || slots[from].id == id then from else LookupFrom(id, from + 1)
    }

    predicate Stored(id: int) {
      Lookup(id) < |slots|
    }

    /** The slot from which id is served. */
    function Served(id: int): nat {
      if Lookup(id) < tcur then Lookup(id) else tcur
    }

    /** After obj_get: an object that has the id moves up into the batch. Otherwise the next slot
        is taken, whatever is in it; if there is none, after allocating some. */
    function Got(id: int, extra: seq<Obj>): Cache
      requires tcur <= |slots|
    {
      var k := Lookup(id);
      if k < tcur then this
      else if k < |slots| then Cache(Swapped(slots, tcur, k), tcur + 1, max)
      else Cache(slots + Unused(extra), tcur + 1, max)
    }

    /** There is a slot for this id. */
    predicate HasRoom(id: int, extra: seq<Obj>) {
      tcur <= |slots| && (Stored(id) || tcur < |slots| || extra != [])
    }

    /** After the caller has also stored the id that it asked for. */
    function Requested(id: int, extra: seq<Obj>): Cache
      requires HasRoom(id, extra)
    {
      var c := Got(id, extra);
      if Stored(id) then c else c.(slots := c.slots[tcur := c.slots[tcur].(id := id)])
    }

    function Ended(): Cache {
      Cache(Aged(slots, tcur), tcur, Used())
    }

    /** All objects, and all of what the slots hold, in whatever order. */
    ghost function Objects(): set<Obj> {
      set i: nat | i < |slots| :: slots[i].obj
    }

    ghost function Holdings(): set<Slot> {
      set i: nat | i < |slots| :: slots[i]
    }
  }

  /** After obj_batch_end: the objects of the batch, and no others, are the old ones. */
  function Aged(slots: seq<Slot>, tcur: nat): (r: seq<Slot>)
    ensures |r| == |slots|
  {
    seq(|slots|, i requires 0 <= i < |slots| => slots[i].(aged := i < tcur))
  }

  function Unused(objs: seq<Obj>): (r: seq<Slot>)
    ensures |r| == |objs|
  {
    seq(|objs|, i requires 0 <= i < |objs| => Slot(objs[i], 0, false))
  }

  /** Objects that may be added: new ones, and only when there is no slot left. */
  ghost predicate MayAdd(c: Cache, extra: seq<Obj>) {
    && (c.tcur < |c.slots| ==> extra == [])
    && (forall i, j | 0 <= i < j < |extra| :: extra[i] != extra[j])
    && (forall i, j | 0 <= i < |extra| && 0 <= j < |c.slots| :: extra[i] != c.slots[j].obj)
  }

  lemma MovedUpValid(c: Cache, id: int, k: nat)
    requires c.Valid() && id != 0 && k == c.Lookup(id) && c.tcur <= k < |c.slots|
    ensures Cache(Swapped(c.slots, c.tcur, k), c.tcur + 1, c.max).Valid()
  {
    var d := Cache(Swapped(c.slots, c.tcur, k), c.tcur + 1, c.max);
    assert c.SlotFits(k) && c.SlotFits(c.tcur);
    forall i: nat | i < |d.slots|
      ensures d.SlotFits(i)
    {
      assert c.SlotFits(i);
    }
    forall i: nat, j: nat | i < |d.slots| && j < |d.slots| && i != j
      ensures d.Differ(i, j)
    {
      assert c.Differ(Whence(i, c.tcur, k), Whence(j, c.tcur, k));
    }
  }

  /** Where a swap takes the element from that it puts into slot i. */
  function Whence(i: nat, p: nat, q: nat): nat {
    if i == p then q else if i == q then p else i
  }

  lemma TakenValid(c: Cache, id: int, extra: seq<Obj>)
    requires c.Valid() && id != 0 && c.Lookup(id) == |c.slots| && MayAdd(c, extra)
    requires c.HasRoom(id, extra)
    ensures c.Requested(id, extra).Valid()
  {
    var d := c.Requested(id, extra);
    forall i: nat | i < |d.slots|
      ensures d.SlotFits(i)
    {
      assert i < |c.slots| ==> c.SlotFits(i);
    }
    forall i: nat, j: nat | i < |d.slots| && j < |d.slots| && i != j
      ensures d.Differ(i, j)
    {
      assert i < |c.slots| ==> c.SlotFits(i);
      assert j < |c.slots| ==> c.SlotFits(j);
      assert i < |c.slots| && j < |c.slots| ==> c.Differ(i, j);
    }
  }

  lemma RequestedValid(c: Cache, id: int, extra: seq<Obj>)
    requires c.Valid() && id != 0 && MayAdd(c, extra) && c.HasRoom(id, extra)
    ensures c.Requested(id, extra).Valid()
  {
    var k := c.Lookup(id);
    if k == |c.slots| {
      TakenValid(c, id, extra);
    } else if k >= c.tcur {
      MovedUpValid(c, id, k);
    }
  }

  lemma GotDistinct(c: Cache, id: int, extra: seq<Obj>)
    requires c.Valid() && id != 0 && MayAdd(c, extra) && c.HasRoom(id, extra)
    ensures var d, p := c.Got(id, extra), c.Served(id);
            p < |d.slots| && forall i | 0 <= i < |d.slots| && i != p :: d.slots[i].obj != d.slots[p].obj
  {
    var d, e, p := c.Got(id, extra), c.Requested(id, extra), c.Served(id);
    RequestedValid(c, id, extra);
    forall i | 0 <= i < |d.slots| && i != p
      ensures d.slots[i].obj != d.slots[p].obj
    {
      assert e.Differ(i, p);
    }
  }

  /** A request adds its id to the ids of the batch, unless it is there already. */
  lemma RequestedLive(c: Cache, id: int, extra: seq<Obj>)
    requires c.Valid() && id != 0 && c.HasRoom(id, extra)
    ensures c.Requested(id, extra).Used() <= |c.Requested(id, extra).slots|
    ensures c.Requested(id, extra).Live() == Noted(c.Live(), id)
  {
    var k, d := c.Lookup(id), c.Requested(id, extra);
    if k < c.tcur {
      assert c.Live()[k] == id;
    } else {
      assert k < |c.slots| ==> c.SlotFits(k);
      assert d.Live() == c.Live() + [id];
    }
  }

  lemma RestartValid(c: Cache)
    requires c.Valid() && c.tcur <= c.max
    ensures c.(tcur := 0).Valid()
  {
    var d := c.(tcur := 0);
    forall i: nat | i < |d.slots|
      ensures d.SlotFits(i)
    {
      assert c.SlotFits(i);
    }
    forall i: nat, j: nat | i < |d.slots| && j < |d.slots| && i != j
      ensures d.Differ(i, j)
    {
      assert c.Differ(i, j);
    }
  }

  lemma EndedValid(c: Cache)
    requires c.Valid()
    ensures c.Ended().Valid()
  {
    var d := c.Ended();
    forall i: nat | i < |d.slots|
      ensures d.SlotFits(i)
    {
      assert c.SlotFits(i);
    }
    forall i: nat, j: nat | i < |d.slots| && j < |d.slots| && i != j
      ensures d.Differ(i, j)
    {
      assert c.Differ(i, j);
    }
  }

  /** It is enough to look in the slots that have been used. */
  lemma NotStored(c: Cache, id: int)
    requires c.Valid() && id != 0 && forall i | 0 <= i < c.Used() :: c.slots[i].id != id
    ensures !c.Stored(id)
  {
    var k := c.Lookup(id);
    assert k < |c.slots| ==> c.SlotFits(k);
  }

  lemma SwappedHoldings(c: Cache, p: nat, q: nat, d: Cache)
    requires p < |c.slots| && q < |c.slots| && d.slots == Swapped(c.slots, p, q)
    ensures d.Holdings() == c.Holdings() && d.Objects() == c.Objects()
  {
    forall x | x in c.Holdings()
      ensures x in d.Holdings()
    {
      var i: nat :| i < |c.slots| && c.slots[i] == x;
      assert d.slots[Whence(i, p, q)] == x;
    }
    forall x | x in d.Holdings()
      ensures x in c.Holdings()
    {
      var i: nat :| i < |d.slots| && d.slots[i] == x;
      assert c.slots[Whence(i, p, q)] == x;
    }
    ObjectsOfHoldings(c);
    ObjectsOfHoldings(d);
  }

  lemma ObjectsOfHoldings(c: Cache)
    ensures c.Objects() == set x | x in c.Holdings() :: x.obj
  {
    forall o | o in c.Objects()
      ensures exists x :: x in c.Holdings() && x.obj == o
    {
      var i: nat :| i < |c.slots| && c.slots[i].obj == o;
      assert c.slots[i] in c.Holdings();
    }
  }

  /** No object is dropped; and a request for a stored id allocates nothing and leaves every
      object the id that it has. */
  lemma RequestedKeeps(c: Cache, id: int, extra: seq<Obj>)
    requires c.HasRoom(id, extra)
    ensures var d := c.Requested(id, extra);
      && c.Objects() <= d.Objects()
      && (c.Stored(id) ==> |d.slots| == |c.slots| && d.Holdings() == c.Holdings())
  {
    var k, d := c.Lookup(id), c.Requested(id, extra);
    if c.tcur <= k < |c.slots| {
      SwappedHoldings(c, c.tcur, k, d);
    } else if k == |c.slots| {
      forall i: nat | i < |c.slots|
        ensures c.slots[i].obj in d.Objects()
      {
        assert d.slots[i].obj == c.slots[i].obj;
      }
    }
  }

  /** What has been served stays where it is for the rest of the batch. */
  lemma RequestedServes(c: Cache, id: int, extra: seq<Obj>)
    requires c.HasRoom(id, extra)
    ensures var d, p := c.Requested(id, extra), c.Served(id);
      && p < d.tcur <= |d.slots| && d.slots[p].id == id
      && c.tcur <= d.tcur && d.slots[..c.tcur] == c.slots[..c.tcur]
      && d.max == c.max
  {
  }

  lemma StoredIfHeld(c: Cache, x: Slot)
    requires x in c.Holdings()
    ensures c.Stored(x.id)
  {
  }

  /** After part of a batch. */
  ghost predicate SoFar(c: Cache, d: Cache, ids: seq<int>, objs: seq<Obj>) {
    && (|Dedup(ids)| <= |c.slots| ==> |d.slots| == |c.slots|)
    && d.Valid() && d.max == c.max && d.Live() == Dedup(ids)
    && |objs| == |ids| && (forall k | 0 <= k < |ids| :: ServedAs(d, objs[k], ids[k]))
    && c.Objects() <= d.Objects()
    && ((forall id | id in ids :: c.Stored(id)) ==> |d.slots| == |c.slots| && d.Holdings() == c.Holdings())
  }

  /** In the batch, this object has this id. */
  ghost predicate ServedAs(c: Cache, o: Obj, id: int) {
    exists p: nat :: p < c.tcur <= |c.slots| && c.slots[p].obj == o && c.slots[p].id == id
  }

  lemma OneMore(c: Cache, d: Cache, ids: seq<int>, objs: seq<Obj>, id: int, extra: seq<Obj>, o: Obj)
    requires SoFar(c, d, ids, objs) && id != 0 && MayAdd(d, extra) && d.HasRoom(id, extra)
    requires d.Served(id) < |d.Requested(id, extra).slots| && o == d.Requested(id, extra).slots[d.Served(id)].obj
    ensures SoFar(c, d.Requested(id, extra), ids + [id], objs + [o])
  {
    var e := d.Requested(id, extra);
    RequestedValid(d, id, extra);
    RequestedLive(d, id, extra);
    RequestedServes(d, id, extra);
    RequestedKeeps(d, id, extra);
    assert (ids + [id])[..|ids|] == ids;
    assert e.Live() == Dedup(ids + [id]);
    forall k | 0 <= k <= |ids|
      ensures ServedAs(e, (objs + [o])[k], (ids + [id])[k])
    {
      if k < |ids| {
        assert ServedAs(d, objs[k], ids[k]);
        var p: nat :| p < d.tcur && d.slots[p].obj == objs[k] && d.slots[p].id == ids[k];
        assert e.slots[p] == e.slots[..d.tcur][p] == d.slots[p];
      }
    }
    if forall i | i in ids + [id] :: c.Stored(i) {
      assert forall i | i in ids :: i in ids + [id];
      assert id in ids + [id];
      assert c.slots[c.Lookup(id)] in c.Holdings();
      StoredIfHeld(d, c.slots[c.Lookup(id)]);
    }
  }

  // What the methods below need of all this. The predicates are shut, so that what they say is
  // seen only where it is used: in the lemmas that assert Show(0).

  ghost predicate Sound(c: Cache) {
    forall k: nat {:trigger Show(k)} :: Show(k) ==> c.Valid()
  }

  ghost predicate Served(c: Cache, d: Cache, ids: seq<int>, objs: seq<Obj>) {
    forall k: nat {:trigger Show(k)} :: Show(k) ==> SoFar(c, d, ids, objs)
  }

  lemma SoundIsValid(c: Cache)
    ensures Sound(c) <==> c.Valid()
  {
    assert Show(0);
  }

  lemma SoundBounds(c: Cache)
    requires Sound(c)
    ensures c.Used() <= |c.slots|
    ensures forall i, j | 0 <= i < j < |c.slots| :: c.slots[i].obj != c.slots[j].obj
    ensures forall i | c.Used() <= i < |c.slots| :: !c.slots[i].aged
  {
    SoundIsValid(c);
    forall i | c.Used() <= i < |c.slots|
      ensures !c.slots[i].aged
    {
      assert c.SlotFits(i);
    }
    forall i, j | 0 <= i < j < |c.slots|
      ensures c.slots[i].obj != c.slots[j].obj
    {
      assert c.Differ(i, j);
    }
  }

  lemma SoundSteps(c: Cache)
    requires Sound(c)
    ensures c.tcur <= c.max ==> Sound(c.(tcur := 0)) && Served(c, c.(tcur := 0), [], [])
    ensures Sound(c.Ended())
  {
    SoundIsValid(c);
    SoundIsValid(c.(tcur := 0));
    SoundIsValid(c.Ended());
    EndedValid(c);
    if c.tcur <= c.max {
      RestartValid(c);
      assert c.Objects() == c.(tcur := 0).Objects() && c.Holdings() == c.(tcur := 0).Holdings();
    }
  }

  lemma SoundGet(c: Cache, id: int, extra: seq<Obj>)
    requires Sound(c) && id != 0 && MayAdd(c, extra) && c.HasRoom(id, extra)
    ensures Sound(c.Requested(id, extra))
    ensures var d, p := c.Got(id, extra), c.Served(id);
            p < |d.slots| && forall i | 0 <= i < |d.slots| && i != p :: d.slots[i].obj != d.slots[p].obj
  {
    SoundIsValid(c);
    SoundIsValid(c.Requested(id, extra));
    RequestedValid(c, id, extra);
    GotDistinct(c, id, extra);
  }

  lemma SoundNotStored(c: Cache, id: int)
    requires Sound(c) && id != 0 && forall i | 0 <= i < c.Used() :: i < |c.slots| ==> c.slots[i].id != id
    ensures !c.Stored(id)
  {
    SoundIsValid(c);
    NotStored(c, id);
  }

  lemma ServedMore(c: Cache, d: Cache, ids: seq<int>, objs: seq<Obj>, id: int, extra: seq<Obj>, o: Obj)
    requires Served(c, d, ids, objs) && id != 0 && MayAdd(d, extra) && d.HasRoom(id, extra)
    requires d.Served(id) < |d.Requested(id, extra).slots| && o == d.Requested(id, extra).slots[d.Served(id)].obj
    ensures Served(c, d.Requested(id, extra), ids + [id], objs + [o])
  {
    assert Show(0);
    OneMore(c, d, ids, objs, id, extra, o);
  }

  class ObjectList {
    var data: seq<Obj>
    var cur: nat
    var tcur: nat
    var max: nat
    const incr: nat

    ghost function View(): (c: Cache)
      reads this, data
      ensures c.tcur == tcur && c.max == max && |c.slots| == |data|
      ensures forall i | 0 <= i < |data| :: c.slots[i] == Slot(data[i], data[i].id, data[i].aged)
    {
      Cache(seq(|data|, i requires 0 <= i < |data| reads this, data => Slot(data[i], data[i].id, data[i].aged)),
            tcur, max)
    }

    ghost predicate Valid()
      reads this, data
    {
      incr > 0 && cur <= max && Sound(View())
    }

    constructor (incr: nat)
      requires incr > 0
      ensures Valid() && View() == Cache([], 0, 0)
    {
      data, cur, tcur, max, this.incr := [], 0, 0, 0, incr;
    }

    method BatchStart()
      requires Valid() && tcur <= max
      modifies this`tcur
      ensures Valid() && View() == old(View()).(tcur := 0)
    {
      ghost var c := View();
      SoundSteps(c);
      tcur := 0;
      assert View().slots == c.slots;
    }

    /** The first slot in [from, to) whose object has this id, and otherwise where the search
        ends. */
    method Search(arg: int, from: nat, to: nat) returns (n: nat)
      requires to <= |data|
      ensures from <= n && (n < to ==> data[n].id == arg)
      ensures forall i | from <= i < n :: i < to && data[i].id != arg
      ensures n >= to ==> n == if from > to then from else to
    {
      n := from;
      while n < to && data[n].id != arg
        invariant from <= n && (n <= to || n == from)
        invariant forall i | from <= i < n :: i < to && data[i].id != arg
      {
        n := n + 1;
      }
    }

    /** Allocate incr more objects if there is no slot left. */
    method MakeRoom() returns (ghost extra: seq<Obj>)
      requires incr > 0 && tcur <= |data|
      modifies this`data
      ensures tcur < |data| && data == old(data) + extra
      ensures |extra| == if tcur < old(|data|) then 0 else incr
      ensures forall i, j | 0 <= i < j < |extra| :: extra[i] != extra[j]
      ensures forall i | 0 <= i < |extra| :: fresh(extra[i]) && extra[i].id == 0 && !extra[i].aged
    {
      extra := [];
      if tcur < |data| {
        return;
      }
      var n := 0;
      while n < incr
        invariant 0 <= n <= incr && |extra| == n && data == old(data) + extra
        invariant forall i, j | 0 <= i < j < |extra| :: extra[i] != extra[j]
        invariant forall i | 0 <= i < |extra| :: fresh(extra[i]) && extra[i].id == 0 && !extra[i].aged
      {
        var o := new Obj();
        extra := extra + [o];
        data := data + [o];
        n := n + 1;
      }
    }

    /** The part of obj_get beyond the batch: at label `new' the next slot holds what was found
        or room for a new id. */
    method NextSlot(arg: int) returns (ghost extra: seq<Obj>)
      requires Valid() && arg != 0 && View().Lookup(arg) >= tcur
      modifies this`data
      ensures View().HasRoom(arg, extra) && tcur < |data|
      ensures MayAdd(old(View()), extra) && (extra == [] || |extra| == incr)
      ensures View().(tcur := tcur + 1) == old(View()).Got(arg, extra)
      ensures forall i | 0 <= i < |data| :: data[i] in old(data) || fresh(data[i])
    {
      extra := [];
      ghost var c := View();
      SoundBounds(c);
      var n := Search(arg, tcur, max);
      if n < max {
        assert n == c.Lookup(arg);
        var j := data[tcur];
        data := data[tcur := data[n]][n := j];
        assert View().slots == Swapped(c.slots, tcur, n);
      } else {
        SoundNotStored(c, arg);
        extra := MakeRoom();
        assert View().slots == c.slots + Unused(extra);
      }
    }

    /** obj_get */
    method Get(arg: int) returns (o: Obj, ghost extra: seq<Obj>)
      requires Valid() && arg != 0
      modifies this`data, this`tcur
      ensures old(View()).HasRoom(arg, extra)
      ensures MayAdd(old(View()), extra) && (extra == [] || |extra| == incr)
      ensures View() == old(View()).Got(arg, extra)
      ensures old(View()).Served(arg) < |data| && o == data[old(View()).Served(arg)]
      ensures forall i | 0 <= i < |data| :: data[i] in old(data) || fresh(data[i])
    {
      SoundBounds(View());
      var n := Search(arg, 0, tcur);
      if n < tcur {
        assert n == View().Lookup(arg);
        return data[n], [];
      }
      extra := NextSlot(arg);
      o := data[tcur];
      tcur := tcur + 1;
    }

    /** A caller's use of obj_get: it stores the id that it asked for. */
    method Request(id: int) returns (o: Obj, ghost extra: seq<Obj>)
      requires Valid() && id != 0
      modifies this`data, this`tcur, data
      ensures old(View()).HasRoom(id, extra)
      ensures MayAdd(old(View()), extra) && (extra == [] || |extra| == incr)
      ensures View() == old(View()).Requested(id, extra)
      ensures old(View()).Served(id) < |data| && o == data[old(View()).Served(id)]
      ensures Valid() && forall i | 0 <= i < |data| :: data[i] in old(data) || fresh(data[i])
    {
      ghost var c := View();
      o, extra := Get(id);
      SoundGet(c, id, extra);
      ghost var d := c.Requested(id, extra);
      o.id := id;
      assert View().slots == d.slots;
    }

    /** Set or clear the flag of a range of slots. */
    method Mark(from: nat, to: nat, flag: bool)
      requires from <= to <= |data| && forall i, j | 0 <= i < j < |data| :: data[i] != data[j]
      modifies data
      ensures forall i | 0 <= i < |data| :: data[i].id == old(data[i].id)
      ensures forall i | 0 <= i < |data| :: data[i].aged == if from <= i < to then flag else old(data[i].aged)
    {
      var n := from;
      while n < to
        invariant from <= n <= to
        invariant forall i | 0 <= i < |data| :: data[i].id == old(data[i].id)
        invariant forall i | 0 <= i < |data| :: data[i].aged == if from <= i < n then flag else old(data[i].aged)
      {
        data[n].aged := flag;
        n := n + 1;
      }
    }

    method BatchEnd()
      requires Valid()
      modifies this`max, this`cur, data
      ensures Valid() && View() == old(View()).Ended() && cur == tcur
      ensures cur <= |data| && forall i | 0 <= i < |data| :: data[i].aged <==> i < cur
    {
      ghost var c := View();
      SoundBounds(c);
      SoundSteps(c);
      max := if max > tcur then max else tcur;
      cur := tcur;
      Mark(0, cur, true);
      Mark(cur, max, false);
      assert View().slots == c.Ended().slots;
    }

    /** The requests of one batch, in order. */
    method Requests(ids: seq<int>, ghost c: Cache) returns (objs: seq<Obj>)
      requires Valid() && Served(c, View(), [], []) && 0 !in ids
      modifies this`data, this`tcur, data
      ensures Valid() && Served(c, View(), ids, objs)
      ensures forall i | 0 <= i < |data| :: data[i] in old(data) || fresh(data[i])
    {
      objs := [];
      var k := 0;
      while k < |ids|
        invariant 0 <= k <= |ids| && Valid()
        invariant Served(c, View(), ids[..k], objs)
        invariant forall i | 0 <= i < |data| :: data[i] in old(data) || fresh(data[i])
      {
        ghost var d := View();
        var o;
        ghost var extra;
        o, extra := Request(ids[k]);
        assert ids[k] in ids;
        ServedMore(c, d, ids[..k], objs, ids[k], extra, o);
        assert ids[..k + 1] == ids[..k] + [ids[k]];
        objs := objs + [o];
        k := k + 1;
      }
      assert ids[..k] == ids;
    }

    /** A whole batch: objs are the objects handed out, and d is the list before it is closed. */
    method Batch(ids: seq<int>) returns (objs: seq<Obj>, ghost d: Cache)
      requires Valid() && tcur <= max && 0 !in ids
      modifies this, data
      ensures Valid() && tcur <= max && cur == tcur
      ensures Served(old(View()), d, ids, objs) && View() == d.Ended()
      ensures cur <= |data| && forall i | 0 <= i < |data| :: data[i].aged <==> i < cur
    {
      ghost var c := View();
      SoundSteps(c);
      BatchStart();
      objs := Requests(ids, c);
      d := View();
      BatchEnd();
    }
  }

  /** In a batch the same id gets the same object, and different ids get different ones. */
  lemma SameObjectForSameId(c: Cache, d: Cache, ids: seq<int>, objs: seq<Obj>, i: nat, j: nat)
    requires Served(c, d, ids, objs) && i < |ids| && j < |ids|
    ensures |objs| == |ids| && (objs[i] == objs[j] <==> ids[i] == ids[j])
  {
    assert Show(0);
    assert ServedAs(d, objs[i], ids[i]) && ServedAs(d, objs[j], ids[j]);
    var p: nat :| p < d.tcur && d.slots[p].obj == objs[i] && d.slots[p].id == ids[i];
    var q: nat :| q < d.tcur && d.slots[q].obj == objs[j] && d.slots[q].id == ids[j];
    assert d.SlotFits(p);
    assert p != q ==> d.Differ(p, q);
  }

  /** The live objects of a batch are the ids it asked for, without repetition; no object has
      been dropped, and none is allocated as long as there are as many as different ids. */
  lemma BatchKeeps(c: Cache, d: Cache, ids: seq<int>, objs: seq<Obj>)
    requires Served(c, d, ids, objs)
    ensures d.tcur <= |d.slots| && d.Live() == Dedup(ids) && c.Objects() <= d.Objects()
    ensures |Dedup(ids)| <= |c.slots| ==> |d.slots| == |c.slots|
  {
    assert Show(0);
  }

  /** A batch that asks only for ids that are stored allocates nothing, in whatever order it
      asks, and for each gets the object that had the id before. */
  lemma StoredBatch(c: Cache, d: Cache, ids: seq<int>, objs: seq<Obj>, k: nat)
    requires Sound(c) && Served(c, d, ids, objs) && (forall id | id in ids :: c.Stored(id)) && k < |ids|
    ensures |d.slots| == |c.slots| && d.Holdings() == c.Holdings()
    ensures |objs| == |ids| && c.Stored(ids[k]) && objs[k] == c.slots[c.Lookup(ids[k])].obj
  {
    assert Show(0);
    assert ids[k] in ids && ServedAs(d, objs[k], ids[k]);
    var p: nat :| p < d.tcur && d.slots[p].obj == objs[k] && d.slots[p].id == ids[k];
    assert d.slots[p] in d.Holdings();
    var q: nat :| q < |c.slots| && c.slots[q] == d.slots[p];
    var r := c.Lookup(ids[k]);
    assert d.SlotFits(p);
    assert q != r ==> c.Differ(q, r);
  }
}
