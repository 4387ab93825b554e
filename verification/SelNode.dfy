/** The selected nodes (selnode.c), and the flyby records by which a session of selecting is
    recorded and played back (flyby.c). */
module SelNode {
  import opened Nodes

  datatype Fvec = Fvec(x: real, y: real, z: real)

  const ZERO: Fvec := Fvec(0.0, 0.0, 0.0)

  /** A selected node with the offset of the copy of the torus in which it was selected. */
  datatype Sel = Sel(node: Node, offv: Fvec)

  /** What flyby_writeselnode writes. */
  datatype Record = Record(nid: int, offv: Fvec)

  datatype Mode = Off | Playing | Recording

  // ---- the list ----

  /** The first place of n in the list, or the length of the list. */
  function Find(list: seq<Sel>, n: Node): (k: nat)
    ensures k <= |list| && (k < |list| ==> list[k].node == n)
    ensures forall i | 0 <= i < k :: list[i].node != n
  {
    if list == [] || list[0].node == n then 0 else 1 + Find(list[1..], n)
  }

  predicate Listed(list: seq<Sel>, n: Node) {
    Find(list, n) < |list|
  }

  ghost predicate NoneTwice(list: seq<Sel>) {
    forall i, j | 0 <= i < j < |list| :: list[i].node != list[j].node
  }

  lemma FindAt(list: seq<Sel>, i: nat)
    requires NoneTwice(list) && i < |list|
    ensures Find(list, list[i].node) == i
  {
    assert Find(list, list[i].node) <= i;
  }

  function Without(list: seq<Sel>, n: Node): seq<Sel>
    requires Listed(list, n)
  {
    list[..Find(list, n)] + list[Find(list, n) + 1..]
  }

  function Toggled(list: seq<Sel>, n: Node, offv: Fvec): seq<Sel> {
    if Listed(list, n) then Without(list, n) else [Sel(n, offv)] + list
  }

  ghost function Pairs(list: seq<Sel>): set<Sel> {
    set x | x in list
  }

  /** What toggling does to the set of selected nodes, whatever their order. */
  ghost function SetToggled(s: set<Sel>, n: Node, offv: Fvec): set<Sel> {
    if exists x | x in s :: x.node == n then set x | x in s && x.node != n else s + {Sel(n, offv)}
  }

  lemma WithoutPairs(list: seq<Sel>, n: Node)
    requires NoneTwice(list) && Listed(list, n)
    ensures NoneTwice(Without(list, n)) && !Listed(Without(list, n), n)
    ensures Pairs(Without(list, n)) == set x | x in list && x.node != n
  {
    var k, l := Find(list, n), Without(list, n);
    assert list[k].node == n;
    forall x | x in list && x.node != n
      ensures x in l
    {
      var i :| 0 <= i < |list| && list[i] == x;
      assert l[if i < k then i else i - 1] == x;
    }
  }

  lemma ToggledPairs(list: seq<Sel>, n: Node, offv: Fvec)
    requires NoneTwice(list)
    ensures NoneTwice(Toggled(list, n, offv))
    ensures Pairs(Toggled(list, n, offv)) == SetToggled(Pairs(list), n, offv)
  {
    if Listed(list, n) {
      assert list[Find(list, n)] in Pairs(list);
      WithoutPairs(list, n);
    } else {
      assert forall x | x in list :: x.node != n;
    }
  }

  // ---- playing records back ----

  /** The list after the records are read, toggling the node of each. */
  function Replayed(m: map<int, Node>, records: seq<Record>): seq<Sel> {
    if records == [] then []
    else
      var r, before := records[|records| - 1], Replayed(m, records[..|records| - 1]);
      if r.nid in m then Toggled(before, m[r.nid], r.offv) else before
  }

  ghost function Played(m: map<int, Node>, s: set<Sel>, records: seq<Record>): set<Sel> {
    if records == [] then s
    else
      var r, before := records[|records| - 1], Played(m, s, records[..|records| - 1]);
      if r.nid in m then SetToggled(before, m[r.nid], r.offv) else before
  }

  lemma {:induction false} ReplayedPairs(m: map<int, Node>, records: seq<Record>)
    ensures NoneTwice(Replayed(m, records))
    ensures Pairs(Replayed(m, records)) == Played(m, {}, records)
  {
    if records != [] {
      var r, before := records[|records| - 1], records[..|records| - 1];
      ReplayedPairs(m, before);
      if r.nid in m {
        ToggledPairs(Replayed(m, before), m[r.nid], r.offv);
      }
    }
  }

  lemma {:induction false} PlayedInTurn(m: map<int, Node>, s: set<Sel>, a: seq<Record>, b: seq<Record>)
    ensures Played(m, s, a + b) == Played(m, Played(m, s, a), b)
    decreases |b|
  {
    if b == [] {
      assert a + b == a;
    } else {
      var n := |b| - 1;
      assert (a + b)[..|a + b| - 1] == a + b[..n];
      PlayedInTurn(m, s, a, b[..n]);
    }
  }

  lemma PlayedOne(m: map<int, Node>, s: set<Sel>, a: seq<Record>, r: Record)
    requires r.nid in m
    ensures Played(m, s, a + [r]) == SetToggled(Played(m, s, a), m[r.nid], r.offv)
  {
    assert (a + [r])[..|a|] == a;
  }

  ghost predicate Known(m: map<int, Node>, n: Node) {
    n.nid in m && m[n.nid] == n
  }

  ghost predicate AllKnown(m: map<int, Node>, list: seq<Sel>) {
    forall i | 0 <= i < |list| :: Known(m, list[i].node)
  }

  /** The records by which a session starts, and those by which the selection is cleared. */
  function Opening(list: seq<Sel>): (r: seq<Record>)
    ensures |r| == |list|
  {
    seq(|list|, i requires 0 <= i < |list| => Record(list[i].node.nid, list[i].offv))
  }

  function Clearing(list: seq<Sel>): (r: seq<Record>)
    ensures |r| == |list|
  {
    seq(|list|, i requires 0 <= i < |list| => Record(list[i].node.nid, ZERO))
  }

  /** The opening records select what is selected. */
  lemma {:induction false} OpeningSelects(m: map<int, Node>, list: seq<Sel>)
    requires AllKnown(m, list) && NoneTwice(list)
    ensures Played(m, {}, Opening(list)) == Pairs(list)
  {
    if list != [] {
      var n := |list| - 1;
      var x := list[n];
      OpeningSelects(m, list[..n]);
      assert Opening(list) == Opening(list[..n]) + [Record(x.node.nid, x.offv)];
      PlayedOne(m, {}, Opening(list[..n]), Record(x.node.nid, x.offv));
      assert list == list[..n] + [x];
      assert forall y | y in list[..n] :: y.node != x.node;
      assert Known(m, x.node);
    }
  }

  lemma HeadDeselected(m: map<int, Node>, list: seq<Sel>, r: Record)
    requires list != [] && Known(m, list[0].node) && NoneTwice(list) && r == Record(list[0].node.nid, ZERO)
    ensures Played(m, Pairs(list), [r]) == Pairs(list[1..])
  {
    var x, rest := list[0], list[1..];
    PlayedOne(m, Pairs(list), [], r);
    assert [] + [r] == [r];
    assert x in Pairs(list);
    assert list == [x] + rest;
    assert forall y | y in rest :: y.node != x.node;
  }

  /** The clearing records deselect it. */
  lemma {:induction false} ClearingDeselects(m: map<int, Node>, list: seq<Sel>)
    requires AllKnown(m, list) && NoneTwice(list)
    ensures Played(m, Pairs(list), Clearing(list)) == {}
    decreases |list|
  {
    if list != [] {
      var rest, r := list[1..], Record(list[0].node.nid, ZERO);
      assert Known(m, list[0].node);
      assert Clearing(list) == [r] + Clearing(rest);
      PlayedInTurn(m, Pairs(list), [r], Clearing(rest));
      HeadDeselected(m, list, r);
      assert forall i | 0 <= i < |rest| :: rest[i] == list[i + 1];
      ClearingDeselects(m, rest);
    }
  }

  // ---- the operations, on sets ----

  datatype Op = Add(n: Node, offv: Fvec) | Del(n: Node) | Toggle(n: Node, offv: Fvec) | Set(n: Node, offv: Fvec) | Clear

  ghost predicate OpKnown(m: map<int, Node>, op: Op) {
    op.Clear? || Known(m, op.n)
  }

  ghost predicate InSet(s: set<Sel>, n: Node) {
    exists x | x in s :: x.node == n
  }

  ghost function Others(s: set<Sel>, n: Node): set<Sel> {
    set x | x in s && x.node != n
  }

  /** What an operation makes of the set of selected nodes. */
  ghost function After(s: set<Sel>, op: Op): set<Sel> {
    match op
    case Add(n, offv) => if InSet(s, n) then s else s + {Sel(n, offv)}
    case Del(n) => Others(s, n)
    case Toggle(n, offv) => if InSet(s, n) then Others(s, n) else s + {Sel(n, offv)}
    case Set(n, offv) => {Sel(n, offv)}
    case Clear => {}
  }

  lemma ListedInSet(list: seq<Sel>, n: Node)
    ensures Listed(list, n) <==> InSet(Pairs(list), n)
  {
    if Listed(list, n) {
      assert list[Find(list, n)] in Pairs(list);
    }
  }

  /** Everything that holds between operations, but for the flags: no node is listed twice, and
      what has been recorded would select just what is selected. */
  ghost predicate Consistent(m: map<int, Node>, list: seq<Sel>, mode: Mode, file: seq<Record>) {
    && AllKnown(m, list) && NoneTwice(list)
    && (mode == Recording ==> Played(m, {}, file) == Pairs(list))
  }

  /** What is written, if anything is recorded. */
  function Written(mode: Mode, records: seq<Record>): seq<Record> {
    if mode == Recording then records else []
  }

  lemma WrittenMore(file: seq<Record>, mode: Mode, a: seq<Record>, b: seq<Record>)
    ensures file + Written(mode, a) + Written(mode, b) == file + Written(mode, a + b)
  {
  }

  lemma ClearingMore(list: seq<Sel>, i: nat)
    requires i < |list|
    ensures Clearing(list)[..i + 1] == Clearing(list)[..i] + [Record(list[i].node.nid, ZERO)]
  {
  }

  lemma Inserted(m: map<int, Node>, list: seq<Sel>, mode: Mode, file: seq<Record>, n: Node, offv: Fvec)
    requires Consistent(m, list, mode, file) && Known(m, n) && !Listed(list, n)
    ensures Consistent(m, [Sel(n, offv)] + list, mode, file + Written(mode, [Record(n.nid, offv)]))
    ensures Pairs([Sel(n, offv)] + list) == Pairs(list) + {Sel(n, offv)}
  {
    var r := Record(n.nid, offv);
    ToggledPairs(list, n, offv);
    ListedInSet(list, n);
    PlayedOne(m, {}, file, r);
    assert file + [] == file;
  }

  lemma Deleted(m: map<int, Node>, list: seq<Sel>, mode: Mode, file: seq<Record>, n: Node)
    requires Consistent(m, list, mode, file) && Known(m, n) && Listed(list, n)
    ensures Consistent(m, Without(list, n), mode, file + Written(mode, [Record(n.nid, ZERO)]))
    ensures Pairs(Without(list, n)) == Others(Pairs(list), n)
  {
    var r := Record(n.nid, ZERO);
    ToggledPairs(list, n, ZERO);
    WithoutPairs(list, n);
    ListedInSet(list, n);
    PlayedOne(m, {}, file, r);
    assert file + [] == file;
  }

  lemma Cleared(m: map<int, Node>, list: seq<Sel>, mode: Mode, file: seq<Record>)
    requires Consistent(m, list, mode, file)
    ensures Consistent(m, [], mode, file + Written(mode, Clearing(list)))
  {
    PlayedInTurn(m, {}, file, Clearing(list));
    ClearingDeselects(m, list);
    assert Pairs([]) == {};
  }

  class Selection {
    var selnodes: seq<Sel>
    var nselnodes: nat
    var mode: Mode
    var file: seq<Record>
    const nidmap: map<int, Node>

    /** At the start nothing is selected. */
    constructor (nidmap: map<int, Node>)
      requires forall nid | nid in nidmap :: nidmap[nid].nid == nid && !nidmap[nid].selected
      ensures Valid() && selnodes == [] && mode == Off && file == [] && this.nidmap == nidmap
    {
      this.nidmap, selnodes, nselnodes, mode, file := nidmap, [], 0, Off, [];
    }

    /** A node's flag is set exactly if it is listed. */
    ghost predicate Flagged(list: seq<Sel>)
      reads nidmap.Values
    {
      forall n | n in nidmap.Values :: n.selected <==> Listed(list, n)
    }

    ghost predicate Valid()
      reads this, nidmap.Values
    {
      && (forall nid | nid in nidmap :: nidmap[nid].nid == nid)
      && Consistent(nidmap, selnodes, mode, file)
      && nselnodes == |selnodes| && Flagged(selnodes)
    }

    method WriteSelNode(nid: int, offv: Fvec)
      modifies this`file
      ensures file == old(file) + [Record(nid, offv)]
    {
      file := file + [Record(nid, offv)];
    }

    method Insert(n: Node, offv: Fvec)
      requires Valid() && Known(nidmap, n) && !Listed(selnodes, n)
      modifies this`selnodes, this`nselnodes, this`file, n
      ensures Valid() && selnodes == [Sel(n, offv)] + old(selnodes)
      ensures file == old(file) + Written(mode, [Record(n.nid, offv)])
    {
      Inserted(nidmap, selnodes, mode, file, n, offv);
      n.selected := true;
      selnodes := [Sel(n, offv)] + selnodes;
      if mode == Recording {
        WriteSelNode(n.nid, offv);
      }
      nselnodes := nselnodes + 1;
    }

    /** Select a node unless it is selected already. */
    method AddNode(n: Node, offv: Fvec)
      requires Valid() && Known(nidmap, n)
      modifies this`selnodes, this`nselnodes, this`file, n
      ensures Valid()
      ensures selnodes == if old(Listed(selnodes, n)) then old(selnodes) else [Sel(n, offv)] + old(selnodes)
      ensures file == old(file) + if old(Listed(selnodes, n)) then [] else Written(mode, [Record(n.nid, offv)])
    {
      var i := 0;
      while i < |selnodes|
        invariant 0 <= i <= |selnodes|
        invariant forall j | 0 <= j < i :: selnodes[j].node != n
      {
        if selnodes[i].node == n {
          return;
        }
        i := i + 1;
      }
      Insert(n, offv);
    }

    /** The flags of the nodes listed from place i on are set, and no others. */
    ghost predicate FlaggedFrom(i: nat)
      reads this`selnodes, nidmap.Values
    {
      forall n | n in nidmap.Values :: n.selected <==> i <= Find(selnodes, n) < |selnodes|
    }

    method Deselect(i: nat)
      requires i < |selnodes| && NoneTwice(selnodes) && Known(nidmap, selnodes[i].node) && FlaggedFrom(i)
      modifies this`file, selnodes[i].node
      ensures FlaggedFrom(i + 1)
      ensures file == old(file) + Written(mode, [Record(selnodes[i].node.nid, ZERO)])
    {
      FindAt(selnodes, i);
      var n := selnodes[i].node;
      n.selected := false;
      if mode == Recording {
        WriteSelNode(n.nid, ZERO);
      }
    }

    /** The loop of sn_clear. */
    method DeselectAll()
      requires AllKnown(nidmap, selnodes) && NoneTwice(selnodes) && FlaggedFrom(0)
      modifies this`file, nidmap.Values
      ensures FlaggedFrom(|selnodes|)
      ensures file == old(file) + Written(mode, Clearing(selnodes))
    {
      var i := 0;
      ghost var written := [];
      while i < |selnodes|
        invariant 0 <= i <= |selnodes|
        invariant written == Clearing(selnodes)[..i] && file == old(file) + Written(mode, written)
        invariant FlaggedFrom(i)
      {
        assert Known(nidmap, selnodes[i].node);
        ghost var r := Record(selnodes[i].node.nid, ZERO);
        WrittenMore(old(file), mode, written, [r]);
        ClearingMore(selnodes, i);
        Deselect(i);
        written := written + [r];
        i := i + 1;
      }
      assert written == Clearing(selnodes);
    }

    /** Deselect everything, from the head of the list on. */
    method ClearNodes()
      requires Valid()
      modifies this`selnodes, this`nselnodes, this`file, nidmap.Values
      ensures Valid() && selnodes == []
      ensures file == old(file) + Written(mode, Clearing(old(selnodes)))
    {
      Cleared(nidmap, selnodes, mode, file);
      if selnodes == [] {
        assert file == file + Written(mode, Clearing(selnodes));
        return;
      }
      DeselectAll();
      selnodes := [];
      nselnodes := 0;
    }

    /** Deselect a node, if it is selected. */
    method DelNode(n: Node) returns (found: bool)
      requires Valid() && Known(nidmap, n)
      modifies this`selnodes, this`nselnodes, this`file, n
      ensures Valid() && found == old(Listed(selnodes, n)) && !Listed(selnodes, n)
      ensures selnodes == if found then Without(old(selnodes), n) else old(selnodes)
      ensures file == old(file) + if found then Written(mode, [Record(n.nid, ZERO)]) else []
    {
      var i := 0;
      while i < |selnodes|
        invariant 0 <= i <= |selnodes| && unchanged(this) && n.selected == old(n.selected)
        invariant forall j | 0 <= j < i :: selnodes[j].node != n
      {
        if selnodes[i].node == n {
          Deleted(nidmap, selnodes, mode, file, n);
          WithoutPairs(selnodes, n);
          assert i == Find(selnodes, n);
          OthersListed(selnodes, n);
          n.selected := false;
          selnodes := selnodes[..i] + selnodes[i + 1..];
          if mode == Recording {
            WriteSelNode(n.nid, ZERO);
          }
          nselnodes := nselnodes - 1;
          return true;
        }
        i := i + 1;
      }
      return false;
    }

    method ToggleNode(n: Node, offv: Fvec)
      requires Valid() && Known(nidmap, n)
      modifies this`selnodes, this`nselnodes, this`file, n
      ensures Valid() && selnodes == Toggled(old(selnodes), n, offv)
      ensures file == old(file) + Written(mode, [Record(n.nid, if old(Listed(selnodes, n)) then ZERO else offv)])
    {
      var found := DelNode(n);
      if !found {
        Insert(n, offv);
      }
    }

    /** Select just one node. */
    method SetNode(n: Node, offv: Fvec)
      requires Valid() && Known(nidmap, n)
      modifies this`selnodes, this`nselnodes, this`file, nidmap.Values
      ensures Valid() && selnodes == [Sel(n, offv)]
      ensures file == old(file) + Written(mode, Clearing(old(selnodes))) + Written(mode, [Record(n.nid, offv)])
    {
      ClearNodes();
      assert n in nidmap.Values;
      Insert(n, offv);
      assert [Sel(n, offv)] + [] == [Sel(n, offv)];
    }

    method Perform(op: Op)
      requires Valid() && OpKnown(nidmap, op)
      modifies this`selnodes, this`nselnodes, this`file, nidmap.Values
      ensures Valid() && old(file) <= file
      ensures Pairs(selnodes) == After(old(Pairs(selnodes)), op)
    {
      assert !op.Clear? ==> op.n in nidmap.Values;
      ghost var list := selnodes;
      match op {
        case Add(n, offv) =>
          AddNode(n, offv);
          AddAfter(list, n, offv);
        case Del(n) =>
          var _ := DelNode(n);
          DelAfter(list, n);
        case Toggle(n, offv) =>
          ToggleNode(n, offv);
          ToggledPairs(list, n, offv);
        case Set(n, offv) => SetNode(n, offv);
        case Clear => ClearNodes();
      }
    }

    /** flyby_begin for recording: the session starts with the nodes that are selected already. */
    method BeginRecording()
      requires Valid() && mode == Off && file == []
      modifies this`mode, this`file
      ensures Valid() && mode == Recording && file == Opening(selnodes)
    {
      OpeningSelects(nidmap, selnodes);
      mode := Recording;
      var i := 0;
      while i < |selnodes|
        invariant 0 <= i <= |selnodes| && mode == Recording && file == Opening(selnodes)[..i]
      {
        WriteSelNode(selnodes[i].node.nid, selnodes[i].offv);
        i := i + 1;
      }
      assert Opening(selnodes)[..i] == Opening(selnodes);
    }

    /** A select record is read. */
    method ReadSelNode(r: Record)
      requires Valid() && mode == Playing
      modifies this`selnodes, this`nselnodes, this`file, nidmap.Values
      ensures Valid() && file == old(file)
      ensures selnodes == if r.nid in nidmap then Toggled(old(selnodes), nidmap[r.nid], r.offv) else old(selnodes)
    {
      if r.nid in nidmap {
        assert Known(nidmap, nidmap[r.nid]) && nidmap[r.nid] in nidmap.Values;
        ToggleNode(nidmap[r.nid], r.offv);
      }
    }

    /** The select records of flyby_read, from a cleared selection to the end of the file. */
    method Play()
      requires Valid() && mode == Off
      modifies this`mode, this`selnodes, this`nselnodes, this`file, nidmap.Values
      ensures Valid() && mode == Playing && file == old(file)
      ensures selnodes == Replayed(nidmap, file)
    {
      mode := Playing;
      ClearNodes();
      var pos := 0;
      while pos < |file|
        invariant 0 <= pos <= |file| && file == old(file) && mode == Playing && Valid()
        invariant selnodes == Replayed(nidmap, file[..pos])
        decreases |old(file)| - pos
      {
        assert file[..pos + 1][..pos] == file[..pos];
        ReadSelNode(file[pos]);
        pos := pos + 1;
      }
      assert file[..pos] == file;
    }

    /** A session of operations that is recorded. At each of the marks the file is so long
        between two operations. */
    method Session(ops: seq<Op>) returns (ghost marks: seq<nat>)
      requires Valid() && mode == Recording && forall op | op in ops :: OpKnown(nidmap, op)
      modifies this`selnodes, this`nselnodes, this`file, nidmap.Values
      ensures Valid() && old(file) <= file
      ensures MarksFit(nidmap, old(Pairs(selnodes)), ops, file, marks)
      ensures marks[0] == |old(file)| && marks[|ops|] == |file|
    {
      marks := [|file|];
      MarksStart(nidmap, Pairs(selnodes), file);
      assert ops[..0] == [];
      var k := 0;
      while k < |ops|
        invariant 0 <= k <= |ops| && Valid() && mode == Recording && old(file) <= file
        invariant Pairs(selnodes) == AfterAll(old(Pairs(selnodes)), ops[..k])
        invariant MarksFit(nidmap, old(Pairs(selnodes)), ops[..k], file, marks)
        invariant marks[0] == |old(file)| && marks[k] == |file|
      {
        assert ops[k] in ops;
        ghost var before := file;
        Perform(ops[k]);
        MarksExtended(nidmap, old(Pairs(selnodes)), ops[..k], ops[k], before, file, marks);
        assert ops[..k + 1] == ops[..k] + [ops[k]];
        marks := marks + [|file|];
        k := k + 1;
      }
      assert ops[..k] == ops;
    }
  }

  ghost function AfterAll(s: set<Sel>, ops: seq<Op>): set<Sel> {
    if ops == [] then s else After(AfterAll(s, ops[..|ops| - 1]), ops[|ops| - 1])
  }

  /** Played back from a cleared selection up to mark k, the file selects what was selected after
      k operations. */
  ghost predicate MarkFits(m: map<int, Node>, s: set<Sel>, ops: seq<Op>, file: seq<Record>, mark: nat, k: nat) {
    && k <= |ops| && mark <= |file|
    && NoneTwice(Replayed(m, file[..mark])) && Pairs(Replayed(m, file[..mark])) == AfterAll(s, ops[..k])
  }

  ghost predicate MarksFit(m: map<int, Node>, s: set<Sel>, ops: seq<Op>, file: seq<Record>, marks: seq<nat>) {
    |marks| == |ops| + 1 && forall k: nat | k <= |ops| :: MarkFits(m, s, ops, file, marks[k], k)
  }

  lemma MarksStart(m: map<int, Node>, s: set<Sel>, file: seq<Record>)
    requires Played(m, {}, file) == s
    ensures MarksFit(m, s, [], file, [|file|])
  {
    assert file[..|file|] == file;
    ReplayedPairs(m, file);
  }

  lemma MarksExtended(m: map<int, Node>, s: set<Sel>, ops: seq<Op>, op: Op, before: seq<Record>, file: seq<Record>,
                      marks: seq<nat>)
    requires MarksFit(m, s, ops, before, marks) && before <= file
    requires Played(m, {}, file) == After(AfterAll(s, ops), op)
    ensures MarksFit(m, s, ops + [op], file, marks + [|file|])
  {
    var all, n := ops + [op], |ops|;
    forall k: nat | k <= n + 1
      ensures MarkFits(m, s, all, file, (marks + [|file|])[k], k)
    {
      if k <= n {
        assert MarkFits(m, s, ops, before, marks[k], k);
        assert file[..marks[k]] == before[..marks[k]] && all[..k] == ops[..k];
      } else {
        assert all[..n] == ops && all[..k] == all && file[..|file|] == file;
        ReplayedPairs(m, file);
      }
    }
  }

  lemma OthersListed(list: seq<Sel>, n: Node)
    requires NoneTwice(list) && Listed(list, n)
    ensures forall m | m != n :: Listed(Without(list, n), m) <==> Listed(list, m)
    ensures !Listed(Without(list, n), n)
  {
    WithoutPairs(list, n);
    forall m | m != n
      ensures Listed(Without(list, n), m) <==> Listed(list, m)
    {
      ListedInSet(list, m);
      ListedInSet(Without(list, n), m);
    }
  }

  lemma AddAfter(list: seq<Sel>, n: Node, offv: Fvec)
    requires NoneTwice(list)
    ensures Pairs(if Listed(list, n) then list else [Sel(n, offv)] + list) == After(Pairs(list), Add(n, offv))
  {
    ListedInSet(list, n);
    ToggledPairs(list, n, offv);
  }

  lemma DelAfter(list: seq<Sel>, n: Node)
    requires NoneTwice(list)
    ensures Pairs(if Listed(list, n) then Without(list, n) else list) == Others(Pairs(list), n)
  {
    ListedInSet(list, n);
    if Listed(list, n) {
      WithoutPairs(list, n);
    }
  }
}
