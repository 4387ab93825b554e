/** The selection search of wi_shadow (shadow.c). The cube of nodes is cut into sub-cubes level
    by level; at every level the hit test reports sub-cubes, nearest first, and the search goes
    into them in turn until a hit at the last level is found. The hit test, and the way a
    sub-cube is derived from its parent, are left open here. */
module Shadow {
  import opened Shut
  import opened Wrappers

  /** A record of the hit test: whether the object is on the 2-D canvas, whether the mouse is inside its
      rectangle there, and how large that is; and the sub-cube or node. */
  datatype Hit = Hit(flat: bool, under: bool, area: int, arg: int)

  /** The scene: what the hit test reports for a cube (at the last level it draws nodes instead
      of sub-cubes), and the n-th sub-cube of a cube. */
  datatype Scene<!G> = Scene(hits: (G, bool) -> seq<Hit>, sub: (G, int) -> G)

  /** The number of leading 2-D records. */
  function Flats(recs: seq<Hit>): (n: nat)
    ensures LeadingFlats(recs, n)
  {
    if recs != [] && recs[0].flat then 1 + Flats(recs[1..]) else 0
  }

  predicate LeadingFlats(recs: seq<Hit>, n: nat) {
    n <= |recs| && (forall j | 0 <= j < n :: recs[j].flat) && (n < |recs| ==> !recs[n].flat)
  }

  /** What is left of the records when those are skipped. */
  function Visible(recs: seq<Hit>): seq<Hit> {
    recs[Flats(recs)..]
  }

  lemma {:induction false} FlatsAre(recs: seq<Hit>, n: nat)
    requires LeadingFlats(recs, n)
    ensures Flats(recs) == n
    decreases n
  {
    if n > 0 {
      FlatsAre(recs[1..], n - 1);
    }
  }

  /** sel_process without SPF_2D: the n leading 2-D records are skipped, and of the others the one of
      the given rank is picked, if there is one. */
  method SelProcess(recs: seq<Hit>, rank: nat) returns (gn: Option<Hit>, ghost n: nat)
    ensures LeadingFlats(recs, n)
    ensures gn == if n + rank < |recs| then Some(recs[n + rank]) else None
  {
    var i := 0;
    while i < |recs| && recs[i].flat
      invariant 0 <= i <= |recs| && forall j | 0 <= j < i :: recs[j].flat
    {
      i := i + 1;
    }
    n := i;
    var left: int := rank;
    gn := None;
    while i < |recs|
      invariant n <= i <= |recs| && left == rank - (i - n) >= 0
    {
      gn := Some(recs[i]);
      if left == 0 {
        return;
      }
      left := left - 1;
      i := i + 1;
    }
    gn := None;
  }

  /** h is the record k among the leading 2-D records: the mouse is in it, and it is the smallest such,
      and the first of that size. */
  ghost predicate IsBest(recs: seq<Hit>, n: nat, k: nat) {
    && k < n <= |recs| && recs[k].under
    && forall j | 0 <= j < n && recs[j].under :: recs[k].area <= recs[j].area && (j < k ==> recs[k].area < recs[j].area)
  }

  /** sel_process with SPF_2D: the best of the leading 2-D records, if the mouse is in any. k is the place
      of that record. */
  method SelProcessFlat(recs: seq<Hit>) returns (gn: Option<Hit>, ghost k: nat)
    ensures gn.Some? ==> IsBest(recs, Flats(recs), k) && recs[k] == gn.value
    ensures gn.None? ==> forall j | 0 <= j < Flats(recs) :: !recs[j].under
  {
    gn, k := None, 0;
    var i := 0;
    while i < |recs|
      invariant 0 <= i <= |recs| && Flats(recs) == i + Flats(recs[i..])
      invariant gn.None? ==> forall j | 0 <= j < i :: !recs[j].under
      invariant gn.Some? ==> IsBest(recs, i, k) && recs[k] == gn.value
    {
      if !recs[i].flat {
        return;
      }
      if recs[i].under && (gn.None? || recs[i].area < gn.value.area) {
        gn, k := Some(recs[i]), i;
      }
      assert recs[i..][1..] == recs[i + 1..];
      i := i + 1;
    }
  }

  /** The hits at a level: what the search can pick from. */
  function Choices<G>(sc: Scene<G>, g: G, last: bool): seq<Hit> {
    Visible(sc.hits(g, last))
  }

  // ---- depth-first search ----

  /** Search cube g, with `below` more levels under it, starting with its hit of rank c. */
  function Dfs<G>(sc: Scene<G>, g: G, below: nat, c: nat): (r: Option<Hit>)
    decreases below, |Choices(sc, g, below == 0)| - c
  {
    var hs := Choices(sc, g, below == 0);
    if c >= |hs| then None
    else if below == 0 then Some(hs[c])
    else
      match Dfs(sc, sc.sub(g, hs[c].arg), below - 1, 0) {
        case Some(h) => Some(h)
        case None => Dfs(sc, g, below, c + 1)
      }
  }

  /** How many hit tests that takes when nothing is found. */
  function Cost<G>(sc: Scene<G>, g: G, below: nat, c: nat): (n: nat)
    ensures n > 0
    decreases below, |Choices(sc, g, below == 0)| - c
  {
    var hs := Choices(sc, g, below == 0);
    if c >= |hs| || below == 0 then 1
    else 1 + Cost(sc, sc.sub(g, hs[c].arg), below - 1, 0) + Cost(sc, g, below, c + 1)
  }

  // ---- what the depth-first search finds ----

  /** A hit that is no leading 2-D record. */
  ghost predicate CanPick(recs: seq<Hit>, p: nat) {
    p < |recs| && exists j :: 0 <= j <= p && !recs[j].flat
  }

  /** A path: the hits that lead from cube g down to one at the last level, by their places among
      the hits of their cubes. */
  ghost predicate IsPath<G>(sc: Scene<G>, g: G, below: nat, path: seq<nat>) {
    && |path| == below + 1
    && var hs := sc.hits(g, below == 0);
       && CanPick(hs, path[0])
       && (below > 0 ==> IsPath(sc, sc.sub(g, hs[path[0]].arg), below - 1, path[1..]))
  }

  function PathHit<G>(sc: Scene<G>, g: G, below: nat, path: seq<nat>): Hit
    requires IsPath(sc, g, below, path)
  {
    var hs := sc.hits(g, below == 0);
    if below == 0 then hs[path[0]] else PathHit(sc, sc.sub(g, hs[path[0]].arg), below - 1, path[1..])
  }

  /** Lexicographic order on paths of one length. */
  ghost predicate NotAfter(p: seq<nat>, q: seq<nat>)
    requires |p| == |q|
  {
    p == [] || p[0] < q[0] || (p[0] == q[0] && NotAfter(p[1..], q[1..]))
  }

  /** The first path from a cube that does not begin before its hit p. */
  ghost predicate IsFirstPath<G>(sc: Scene<G>, g: G, below: nat, p: nat, path: seq<nat>) {
    && IsPath(sc, g, below, path) && path[0] >= p
    && forall q :: IsPath(sc, g, below, q) && q[0] >= p ==> NotAfter(path, q)
  }

  lemma PickIff(recs: seq<Hit>, p: nat)
    ensures CanPick(recs, p) <==> Flats(recs) <= p < |recs|
  {
    var n := Flats(recs);
    assert n <= p < |recs| ==> !recs[n].flat;
  }

  /** h is the hit of the first path that does not begin before p. */
  ghost predicate IsFirstHit<G>(sc: Scene<G>, g: G, below: nat, p: nat, h: Hit) {
    exists path :: IsFirstPath(sc, g, below, p, path) && PathHit(sc, g, below, path) == h
  }

  ghost predicate AllBefore<G>(sc: Scene<G>, g: G, below: nat, p: nat) {
    forall q :: IsPath(sc, g, below, q) ==> q[0] < p
  }

  /** One step of the search. */
  lemma DfsIs<G>(sc: Scene<G>, g: G, below: nat, c: nat, recs: seq<Hit>, p: nat)
    requires recs == sc.hits(g, below == 0) && p == Flats(recs) + c
    ensures p >= |recs| ==> Dfs(sc, g, below, c) == None
    ensures p < |recs| && below == 0 ==> Dfs(sc, g, below, c) == Some(recs[p])
    ensures p < |recs| && below > 0 ==>
              var r := Dfs(sc, sc.sub(g, recs[p].arg), below - 1, 0);
              Dfs(sc, g, below, c) == if r.Some? then r else Dfs(sc, g, below, c + 1)
    ensures |Choices(sc, g, below == 0)| - c == |recs| - p
  {
  }

  /** The search finds the hit of the lexicographically first path, and nothing exactly if
      there is no path. */
  lemma {:induction false} DfsFindsFirst<G>(sc: Scene<G>, g: G, below: nat, c: nat)
    ensures var p := Flats(sc.hits(g, below == 0)) + c;
            match Dfs(sc, g, below, c)
            case Some(h) => IsFirstHit(sc, g, below, p, h)
            case None => AllBefore(sc, g, below, p)
    decreases below, |Choices(sc, g, below == 0)| - c
  {
    var recs := sc.hits(g, below == 0);
    var p := Flats(recs) + c;
    PickIff(recs, p);
    DfsIs(sc, g, below, c, recs, p);
    if p >= |recs| {
      NoneBehind(sc, g, below, p);
    } else if below == 0 {
      FirstAtLastLevel(sc, g, p);
    } else {
      var child := sc.sub(g, recs[p].arg);
      DfsFindsFirst(sc, child, below - 1, 0);
      match Dfs(sc, child, below - 1, 0) {
        case Some(h) => FirstThroughChild(sc, g, below, p, h, Flats(sc.hits(child, below == 1)));
        case None =>
          DfsFindsFirst(sc, g, below, c + 1);
          NoPathThroughChild(sc, g, below, p);
      }
    }
  }

  lemma NoneBehind<G>(sc: Scene<G>, g: G, below: nat, p: nat)
    requires p >= |sc.hits(g, below == 0)|
    ensures AllBefore(sc, g, below, p)
  {
  }

  lemma FirstAtLastLevel<G>(sc: Scene<G>, g: G, p: nat)
    requires CanPick(sc.hits(g, true), p)
    ensures IsFirstHit(sc, g, 0, p, sc.hits(g, true)[p])
  {
    var path: seq<nat> := [p];
    forall q | IsPath(sc, g, 0, q) && q[0] >= p
      ensures NotAfter(path, q)
    {
    }
    assert IsFirstPath(sc, g, 0, p, path);
  }

  lemma FirstThroughChild<G>(sc: Scene<G>, g: G, below: nat, p: nat, h: Hit, start: nat)
    requires below > 0 && CanPick(sc.hits(g, false), p)
    requires IsFirstHit(sc, sc.sub(g, sc.hits(g, false)[p].arg), below - 1, start, h)
    requires start == Flats(sc.hits(sc.sub(g, sc.hits(g, false)[p].arg), below == 1))
    ensures IsFirstHit(sc, g, below, p, h)
  {
    var child := sc.sub(g, sc.hits(g, false)[p].arg);
    var path :| IsFirstPath(sc, child, below - 1, start, path) && PathHit(sc, child, below - 1, path) == h;
    var longer := [p] + path;
    assert longer[1..] == path;
    forall q | IsPath(sc, g, below, q) && q[0] >= p
      ensures NotAfter(longer, q)
    {
      if q[0] == p {
        assert IsPath(sc, child, below - 1, q[1..]);
        PickIff(sc.hits(child, below == 1), q[1..][0]);
      }
    }
    assert IsFirstPath(sc, g, below, p, longer);
  }

  lemma NoPathThroughChild<G>(sc: Scene<G>, g: G, below: nat, p: nat)
    requires below > 0 && CanPick(sc.hits(g, false), p)
    requires var child := sc.sub(g, sc.hits(g, false)[p].arg);
             AllBefore(sc, child, below - 1, Flats(sc.hits(child, below == 1)))
    ensures AllBefore(sc, g, below, p + 1) ==> AllBefore(sc, g, below, p)
    ensures forall h :: IsFirstHit(sc, g, below, p + 1, h) ==> IsFirstHit(sc, g, below, p, h)
  {
    var child, b: nat := sc.sub(g, sc.hits(g, false)[p].arg), below - 1;
    forall q | IsPath(sc, g, below, q) && q[0] >= p
      ensures q[0] >= p + 1
    {
      var rest := q[1..];
      if q[0] == p {
        assert IsPath(sc, child, b, rest);
        PickIff(sc.hits(child, below == 1), rest[0]);
      }
    }
    forall h | IsFirstHit(sc, g, below, p + 1, h)
      ensures IsFirstHit(sc, g, below, p, h)
    {
      var path :| IsFirstPath(sc, g, below, p + 1, path) && PathHit(sc, g, below, path) == h;
      assert IsFirstPath(sc, g, below, p, path);
    }
  }

  // ---- 2-D records come first ----

  /** No 2-D record comes behind another one. */
  ghost predicate FlatsFirst(recs: seq<Hit>) {
    forall i, j | 0 <= i < j < |recs| && recs[j].flat :: recs[i].flat
  }

  /** A path of hits that are not 2-D. */
  ghost predicate IsNodePath<G>(sc: Scene<G>, g: G, below: nat, path: seq<nat>) {
    && |path| == below + 1
    && var hs := sc.hits(g, below == 0);
       && path[0] < |hs| && !hs[path[0]].flat
       && (below > 0 ==> IsNodePath(sc, sc.sub(g, hs[path[0]].arg), below - 1, path[1..]))
  }

  lemma {:induction false} PathsAreNodePaths<G>(sc: Scene<G>, g: G, below: nat, path: seq<nat>)
    requires forall c, last :: FlatsFirst(sc.hits(c, last))
    ensures IsPath(sc, g, below, path) <==> IsNodePath(sc, g, below, path)
    ensures IsPath(sc, g, below, path) ==> !PathHit(sc, g, below, path).flat
    decreases below
  {
    var hs := sc.hits(g, below == 0);
    assert FlatsFirst(hs);
    if below > 0 && |path| == below + 1 && path[0] < |hs| {
      PathsAreNodePaths(sc, sc.sub(g, hs[path[0]].arg), below - 1, path[1..]);
    }
  }

  /** If 2-D records come first everywhere, no hit that is found is a 2-D one. It is the last one of
      the first path of other hits, and nothing is found exactly if there is no such path. */
  lemma SearchFindsNodes<G>(sc: Scene<G>, root: G, below: nat)
    requires forall c, last :: FlatsFirst(sc.hits(c, last))
    ensures match Dfs(sc, root, below, 0)
            case None => forall q :: !IsNodePath(sc, root, below, q)
            case Some(h) => !h.flat && exists path ::
              && IsNodePath(sc, root, below, path) && IsPath(sc, root, below, path)
              && PathHit(sc, root, below, path) == h
              && forall q :: IsNodePath(sc, root, below, q) ==> NotAfter(path, q)
  {
    DfsFindsFirst(sc, root, below, 0);
    var p := Flats(sc.hits(root, below == 0));
    forall q
      ensures IsNodePath(sc, root, below, q) ==> IsPath(sc, root, below, q) && q[0] >= p
    {
      PathsAreNodePaths(sc, root, below, q);
      if IsPath(sc, root, below, q) {
        PickIff(sc.hits(root, below == 0), q[0]);
      }
    }
    if Dfs(sc, root, below, 0).Some? {
      var path :| IsFirstPath(sc, root, below, p, path)
            && PathHit(sc, root, below, path) == Dfs(sc, root, below, 0).value;
      PathsAreNodePaths(sc, root, below, path);
    }
  }

  // ---- the search with an explicit stack ----

  /** A level of the stack: which hit is being tried there, and the cube. */
  datatype Step<G> = Step(chance: nat, cube: G)

  /** The stack without its top, the next hit being tried on the level below. */
  function Backed<G>(ws: seq<Step<G>>): (r: seq<Step<G>>)
    requires |ws| > 1
    ensures |r| == |ws| - 1
  {
    var n := |ws| - 2;
    ws[..n] + [Step(ws[n].chance + 1, ws[n].cube)]
  }

  /** What the search still finds from a stack. */
  function Resume<G>(sc: Scene<G>, tries: nat, ws: seq<Step<G>>): (r: Option<Hit>)
    requires 0 < |ws| <= tries
    decreases |ws|
  {
    var top := ws[|ws| - 1];
    match Dfs(sc, top.cube, tries - |ws|, top.chance) {
      case Some(h) => Some(h)
      case None => if |ws| == 1 then None else Resume(sc, tries, Backed(ws))
    }
  }

  /** How many hit tests it needs at most. */
  function Work<G>(sc: Scene<G>, tries: nat, ws: seq<Step<G>>): nat
    requires 0 < |ws| <= tries
    decreases |ws|
  {
    var top := ws[|ws| - 1];
    Cost(sc, top.cube, tries - |ws|, top.chance) + if |ws| == 1 then 0 else Work(sc, tries, Backed(ws))
  }

  /** The hit being tried at the top of the stack, if that level has so many. */
  function Tried<G>(sc: Scene<G>, tries: nat, ws: seq<Step<G>>): Option<Hit>
    requires 0 < |ws| <= tries
  {
    var top := ws[|ws| - 1];
    var hs := Choices(sc, top.cube, |ws| == tries);
    if top.chance < |hs| then Some(hs[top.chance]) else None
  }

  /** What the search still finds is what it is to find, after `work` hit tests at most. */
  ghost predicate OnTrack<G>(sc: Scene<G>, root: G, tries: nat, ws: seq<Step<G>>, work: nat)
    requires 0 < |ws| <= tries
  {
    forall k: nat {:trigger Show(k)} :: Show(k) ==>
      Resume(sc, tries, ws) == Dfs(sc, root, tries - 1, 0) && work == Work(sc, tries, ws)
  }

  lemma Start<G>(sc: Scene<G>, root: G, tries: nat) returns (work: nat)
    requires tries > 0
    ensures OnTrack(sc, root, tries, [Step(0, root)], work)
  {
    work := Work(sc, tries, [Step(0, root)]);
  }

  /** A hit above the last level is gone into. */
  lemma Descend<G>(sc: Scene<G>, root: G, tries: nat, ws: seq<Step<G>>, work: nat, h: Hit) returns (less: nat)
    requires 0 < |ws| < tries && OnTrack(sc, root, tries, ws, work) && Tried(sc, tries, ws) == Some(h)
    ensures less < work && OnTrack(sc, root, tries, ws + [Step(0, sc.sub(ws[|ws| - 1].cube, h.arg))], less)
  {
    assert Show(0);
    var n, top := |ws|, ws[|ws| - 1];
    var next := ws + [Step(0, sc.sub(top.cube, h.arg))];
    var back := Backed(next);
    assert back == ws[..n - 1] + [Step(top.chance + 1, top.cube)];
    if n > 1 {
      assert Backed(back) == Backed(ws);
    }
    var hs := Choices(sc, top.cube, false);
    assert h == hs[top.chance];
    assert Work(sc, tries, next) == Cost(sc, sc.sub(top.cube, h.arg), tries - n - 1, 0) + Work(sc, tries, back);
    assert Work(sc, tries, back) == Cost(sc, top.cube, tries - n, top.chance + 1)
                                    + if n == 1 then 0 else Work(sc, tries, Backed(ws));
    less := Work(sc, tries, next);
  }

  /** A level that has no more hits is left. */
  lemma BackUp<G>(sc: Scene<G>, root: G, tries: nat, ws: seq<Step<G>>, work: nat) returns (less: nat)
    requires 1 < |ws| <= tries && OnTrack(sc, root, tries, ws, work) && Tried(sc, tries, ws) == None
    ensures less < work && OnTrack(sc, root, tries, Backed(ws), less)
  {
    assert Show(0);
    less := Work(sc, tries, Backed(ws));
  }

  /** The search is over with the root exhausted or a hit at the last level. */
  lemma Finish<G>(sc: Scene<G>, root: G, tries: nat, ws: seq<Step<G>>, work: nat)
    requires 0 < |ws| <= tries && OnTrack(sc, root, tries, ws, work)
    ensures |ws| == 1 && Tried(sc, tries, ws) == None ==> Dfs(sc, root, tries - 1, 0) == None
    ensures |ws| == tries && Tried(sc, tries, ws) != None ==> Dfs(sc, root, tries - 1, 0) == Tried(sc, tries, ws)
  {
    assert Show(0);
  }

  /** One hit test and the choice of its hit; gn keeps its value if nothing at all is hit. */
  method Probe<G>(sc: Scene<G>, g: G, last: bool, chance: nat, gn0: Option<Hit>) returns (found: bool, gn: Option<Hit>)
    ensures var hs := Choices(sc, g, last);
            if chance < |hs| then found && gn == Some(hs[chance])
            else !found && gn == if sc.hits(g, last) == [] then gn0 else None
  {
    var recs := sc.hits(g, last);
    found, gn := false, gn0;
    if |recs| > 0 {
      ghost var n;
      gn, n := SelProcess(recs, chance);
      FlatsAre(recs, n);
      found := gn.Some?;
    }
  }

  /** The search, for a cube that is cut `tries` times. If it is too small to be cut, nothing is found:
      the stack is empty then, and writing its bottom is left out. */
  method WiShadow<G>(sc: Scene<G>, root: G, tries: nat) returns (gn: Option<Hit>)
    ensures gn == if tries == 0 then None else Dfs(sc, root, tries - 1, 0)
  {
    var ws := new Step<G>[tries](_ => Step(0, root));
    gn := None;
    if tries > 0 {
      gn := Search(sc, root, tries, ws);
    }
  }

  /** The loop of the search. */
  method Search<G>(sc: Scene<G>, root: G, tries: nat, ws: array<Step<G>>) returns (gn: Option<Hit>)
    requires tries > 0 && ws.Length == tries && forall k | 0 <= k < tries :: ws[k].chance == 0
    requires ws[0].cube == root
    modifies ws
    ensures gn == Dfs(sc, root, tries - 1, 0)
  {
    gn := None;
    var pos := 0;
    ghost var stack := [Step(0, root)];
    ghost var work := Start(sc, root, tries);
    while pos < tries
      invariant 0 <= pos < tries && ws[..pos + 1] == stack
      invariant forall k | pos < k < tries :: ws[k].chance == 0
      invariant OnTrack(sc, root, tries, stack, work)
      // gn may be left over from an earlier pass, but not if nothing is ever hit in the root
      invariant stack[0].cube == root && (gn.Some? || pos > 0 ==> tries > 1 && sc.hits(root, false) != [])
      decreases work
    {
      var lasttry := pos == tries - 1;
      Finish(sc, root, tries, stack, work);
      var found;
      found, gn := Probe(sc, ws[pos].cube, lasttry, ws[pos].chance, gn);
      assert ws[pos] == stack[pos];
      assert Tried(sc, tries, stack) == if found then gn else None;
      if found {
        if lasttry {
          return;
        }
        work := Descend(sc, root, tries, stack, work, gn.value);
        stack := stack + [Step(0, sc.sub(ws[pos].cube, gn.value.arg))];
        pos := pos + 1;
        ws[pos] := ws[pos].(cube := sc.sub(ws[pos - 1].cube, gn.value.arg));
      } else {
        ws[pos] := ws[pos].(chance := 0);
        pos := pos - 1;
        if pos < 0 {
          return;
        }
        work := BackUp(sc, root, tries, stack, work);
        stack := Backed(stack);
        ws[pos] := ws[pos].(chance := ws[pos].chance + 1);
      }
    }
  }
}
