/** getopt_internal (compat/getopt.c) without long options: a scanner that keeps its place
    between calls and, when permutation is on, moves the options of argv in front of the
    other arguments while it scans. */
module Getopt {
  import opened PermuteArgs
  import opened Sequences
  import opened Shut
  import opened Wrappers

  /** What one call reports; Done is the return value -1. */
  datatype Outcome =
    | Done
    | Letter(c: char, arg: Option<string>)
    | InOrder(element: string)
    | BadLetter(c: char)
    | MissingArgument(c: char, reported: char)

  /** The option string without its leading '+' or '-', and the flags in force. */
  datatype Syntax = Syntax(letters: string, permute: bool, allargs: bool)

  function SyntaxOf(options: string, posixlyCorrect: bool, permute: bool): Syntax {
    var plus := posixlyCorrect || (options != "" && options[0] == '+');
    var minus := options != "" && options[0] == '-';
    Syntax(if options != "" && options[0] in "+-" then options[1..] else options,
           permute && !plus, minus && !plus)
  }

  /** strchr: the first position of c, or -1. */
  function Find(s: string, c: char): (k: int)
    ensures -1 <= k < |s|
    ensures k >= 0 ==> s[k] == c
    ensures k == -1 <==> c !in s
  {
    if s == "" then -1
    else if s[0] == c then 0
    else
      var k := Find(s[1..], c);
      if k == -1 then -1 else k + 1
  }

  /** Find finds the first occurrence. */
  lemma {:induction false} FindIsFirst(s: string, c: char, i: nat)
    requires i < |s| && s[i] == c
    ensures 0 <= Find(s, c) <= i
  {
    if s[0] != c {
      FindIsFirst(s[1..], c, i - 1);
    }
  }

  datatype Kind = NonOption | Dashes | Cluster

  function KindOf(o: Syntax, arg: string): Kind {
    if arg == "" || arg[0] != '-' then NonOption
    else if arg == "-" then if '-' in o.letters then Cluster else NonOption
    else if arg == "--" then Dashes
    else Cluster
  }

  /** The letters of a cluster that remain to be read when scanning starts on it. */
  function Letters(arg: string): string
    requires arg != ""
  {
    if arg == "-" then arg else arg[1..]
  }

  /** Reading one letter: what is reported, how many elements of argv it finishes, and the
      letters left. Stuck is the early return of -1 at a trailing '-' that is no option. */
  datatype Reading = Read(out: Outcome, used: nat, rest: string) | Stuck

  predicate Colon(letters: string, k: nat) {
    k < |letters| && letters[k] == ':'
  }

  function ReadLetter(o: Syntax, place: string, next: Option<string>): Reading
    requires place != ""
  {
    var c, rest := place[0], place[1..];
    var k := Find(o.letters, c);
    var used := if rest == "" then 1 else 0;
    if c == ':' || (c == '-' && rest != "") || k == -1 then
      if c == '-' && rest == "" then Stuck else Read(BadLetter(c), used, rest)
    else if !Colon(o.letters, k + 1) then
      Read(Letter(c, None), used, rest)
    else if rest != "" then
      Read(Letter(c, Some(rest)), 1, "")
    else if !Colon(o.letters, k + 2) then
      if next.None? then Read(MissingArgument(c, if Colon(o.letters, 0) then ':' else '?'), 1, "")
      else Read(Letter(c, next), 2, "")
    else if !o.permute && next.Some? && !(next.value != "" && next.value[0] == '-') then
      Read(Letter(c, next), 2, "")
    else
      Read(Letter(c, None), 1, "")
  }

  /** A reading always makes progress, and finishes the element when it leaves no letters. */
  lemma ReadLetterProgress(o: Syntax, place: string, next: Option<string>)
    requires place != ""
    ensures var r := ReadLetter(o, place, next); r.Read? ==>
            && r.out != Done && !r.out.InOrder? && |r.rest| < |place| && (r.used == 0 <==> r.rest != "")
            && r.used <= 2 && (r.used == 2 ==> next.Some?)
  {
  }

  lemma ReadLetterRest(o: Syntax, place: string, next: Option<string>)
    requires place != ""
    ensures match ReadLetter(o, place, next) {
              case Read(_, _, rest) => rest == "" || rest == place[1..]
              case Stuck => place == "-" && '-' !in o.letters
            }
  {
  }

  function NextArg(args: seq<string>, i: nat): (r: Option<string>) {
    if i + 1 < |args| then Some(args[i + 1]) else None
  }

  /** A whole run over an argv that nobody permutes: for each element passed whether it was
      consumed (an option, its argument, or "--") or skipped, the calls' results, and why the
      run ended. */
  datatype Ending = EndOfArgs | AtDoubleDash | AtNonOption | AtStuck
  datatype Walk = Walk(mask: seq<bool>, outs: seq<Outcome>, ending: Ending) {
    function Before(mask': seq<bool>, outs': seq<Outcome>): Walk {
      Walk(mask' + mask, outs' + outs, ending)
    }
  }

  function Consumed(n: nat): (m: seq<bool>)
    ensures |m| == n && forall k :: 0 <= k < n ==> m[k]
  {
    seq(n, _ => true)
  }

  function Run(o: Syntax, args: seq<string>, i: nat, place: string): (w: Walk)
    requires i <= |args| && (place != "" ==> i < |args|)
    ensures i + |w.mask| <= |args|
    ensures Done !in w.outs
    decreases |args| - i, if place != "" then |place| else if i < |args| then |args[i]| + 1 else 0
  {
    if place != "" then
      match ReadLetter(o, place, NextArg(args, i)) {
        case Stuck => Walk([], [], AtStuck)
        case Read(out, used, rest) =>
          ReadLetterProgress(o, place, NextArg(args, i));
          Run(o, args, i + used, rest).Before(Consumed(used), [out])
      }
    else if i == |args| then
      Walk([], [], EndOfArgs)
    else
      match KindOf(o, args[i]) {
        case NonOption =>
          if o.allargs then Run(o, args, i + 1, "").Before([true], [InOrder(args[i])])
          else if !o.permute then Walk([], [], AtNonOption)
          else Run(o, args, i + 1, "").Before([false], [])
        case Dashes => Walk([true], [], AtDoubleDash)
        case Cluster => Run(o, args, i, Letters(args[i]))
      }
  }

  /** The elements of s whose mark is v, in order. */
  function Keep<T>(s: seq<T>, mask: seq<bool>, v: bool): (r: seq<T>)
    requires |mask| == |s|
    ensures |r| <= |s|
    decreases |s|
  {
    if s == [] then []
    else
      var n := |s| - 1;
      Keep(s[..n], mask[..n], v) + (if mask[n] == v then [s[n]] else [])
  }

  /** The consumed elements behind position b, and the skipped ones. */
  function Taken(args: seq<string>, b: nat, mask: seq<bool>): (r: seq<string>)
    requires b + |mask| <= |args|
  {
    Keep(args[b..b + |mask|], mask, true)
  }

  function Left(args: seq<string>, b: nat, mask: seq<bool>): (r: seq<string>)
    requires b + |mask| <= |args|
  {
    Keep(args[b..b + |mask|], mask, false)
  }

  /** args with what lies between positions b and i replaced by x, s and y. */
  function Flat<T>(args: seq<T>, b: nat, i: nat, x: seq<T>, s: seq<T>, y: seq<T>): seq<T>
    requires b <= i <= |args|
  {
    args[..b] + x + s + y + args[i..]
  }

  /** The stable partition of args after position b: the consumed elements, then the
      skipped ones, then everything not reached. */
  function Partition(args: seq<string>, b: nat, mask: seq<bool>): seq<string>
    requires b + |mask| <= |args|
  {
    Flat(args, b, b + |mask|, Taken(args, b, mask), Left(args, b, mask), [])
  }

  lemma FlatSkip<T>(args: seq<T>, b: nat, i: nat, x: seq<T>, s: seq<T>)
    requires b <= i < |args|
    ensures Flat(args, b, i, x, s, []) == Flat(args, b, i + 1, x, s + [args[i]], [])
  {
  }

  lemma FlatTake<T>(args: seq<T>, b: nat, i: nat, x: seq<T>, s: seq<T>, y: seq<T>)
    requires b <= i < |args|
    ensures Flat(args, b, i, x, s, y) == Flat(args, b, i + 1, x, s, y + [args[i]])
    ensures Flat(args, b, i, x, [], []) == Flat(args, b, i + 1, x + [args[i]], [], [])
  {
  }

  lemma FlatExchange<T>(args: seq<T>, b: nat, i: nat, x: seq<T>, s: seq<T>, y: seq<T>,
                        start: nat, mid: nat, stop: nat)
    requires b <= i <= |args|
    requires start == b + |x| && mid == start + |s| && stop == mid + |y|
    ensures stop <= |Flat(args, b, i, x, s, y)|
    ensures Exchange(Flat(args, b, i, x, s, y), start, mid, stop) == Flat(args, b, i, x + y, s, [])
  {
    var f := Flat(args, b, i, x, s, y);
    assert f[..start] == args[..b] + x;
    assert f[start..mid] == s;
    assert f[mid..stop] == y;
    assert f[stop..] == args[i..];
  }

  lemma {:induction false} KeepMultisets<T>(s: seq<T>, mask: seq<bool>)
    requires |mask| == |s|
    ensures multiset(Keep(s, mask, true)) + multiset(Keep(s, mask, false)) == multiset(s)
    decreases |s|
  {
    if s != [] {
      var n := |s| - 1;
      KeepMultisets(s[..n], mask[..n]);
      assert s == s[..n] + [s[n]];
      var c, k := Keep(s[..n], mask[..n], true), Keep(s[..n], mask[..n], false);
      if mask[n] {
        assert multiset(c + [s[n]]) == multiset(c) + multiset{s[n]};
      } else {
        assert multiset(k + [s[n]]) == multiset(k) + multiset{s[n]};
      }
    }
  }

  /** The partition only reorders argv. */
  lemma PartitionPermutes(args: seq<string>, b: nat, mask: seq<bool>)
    requires b + |mask| <= |args|
    ensures multiset(Partition(args, b, mask)) == multiset(args)
  {
    var walked, rest := args[b..b + |mask|], args[b + |mask|..];
    KeepMultisets(walked, mask);
    var c, s := Taken(args, b, mask), Left(args, b, mask);
    assert args == args[..b] + walked + rest;
    assert multiset(args[..b] + c + s + [] + rest)
        == multiset(args[..b]) + (multiset(c) + multiset(s)) + multiset(rest);
  }

  lemma KeepNext<T>(s: seq<T>, mask: seq<bool>, x: T, m: bool, v: bool)
    requires |mask| == |s|
    ensures Keep(s + [x], mask + [m], v) == Keep(s, mask, v) + (if m == v then [x] else [])
  {
    assert (s + [x])[..|s|] == s && (mask + [m])[..|s|] == mask;
  }

  lemma NextElement(args: seq<string>, b: nat, mask: seq<bool>, m: bool)
    requires b + |mask| < |args|
    ensures var x := [args[b + |mask|]];
            && Taken(args, b, mask + [m]) == Taken(args, b, mask) + (if m then x else [])
            && Left(args, b, mask + [m]) == Left(args, b, mask) + (if m then [] else x)
  {
    var i := b + |mask|;
    assert args[b..i + 1] == args[b..i] + [args[i]];
    KeepNext(args[b..i], mask, args[i], m, true);
    KeepNext(args[b..i], mask, args[i], m, false);
  }

  /** The length of mask up to the last element that is skipped. */
  function Past(mask: seq<bool>): (p: nat)
    ensures p <= |mask| && (p > 0 ==> !mask[p - 1])
    ensures forall k | p <= k < |mask| :: mask[k]
  {
    if mask == [] then 0 else if !mask[|mask| - 1] then |mask| else Past(mask[..|mask| - 1])
  }

  lemma PastNext(mask: seq<bool>, m: bool)
    ensures Past(mask + [m]) == if m then Past(mask) else |mask| + 1
    ensures (mask + [m])[..Past(mask + [m])] == if m then mask[..Past(mask)] else mask + [m]
  {
    assert (mask + [m])[..|mask|] == mask;
  }

  /** Behind the last skipped element everything is consumed. */
  ghost predicate SplitsAtPast(args: seq<string>, b: nat, mask: seq<bool>, p: nat) {
    && b + |mask| <= |args| && p <= |mask|
    && Taken(args, b, mask) == Taken(args, b, mask[..p]) + args[b + p..b + |mask|]
    && Left(args, b, mask) == Left(args, b, mask[..p])
  }

  lemma SplitNext(args: seq<string>, b: nat, head: seq<bool>, p: nat)
    requires b + |head| < |args| && SplitsAtPast(args, b, head, p)
    ensures SplitsAtPast(args, b, head + [true], p)
  {
    var x := [args[b + |head|]];
    NextElement(args, b, head, true);
    assert (head + [true])[..p] == head[..p];
    Assoc(Taken(args, b, head[..p]), args[b + p..b + |head|], x);
    assert args[b + p..b + |head|] + x == args[b + p..b + |head| + 1];
  }

  lemma {:induction false} PastSplit(args: seq<string>, b: nat, mask: seq<bool>)
    requires b + |mask| <= |args|
    ensures SplitsAtPast(args, b, mask, Past(mask))
    decreases |mask|
  {
    if Past(mask) == |mask| {
      assert mask[..|mask|] == mask && args[b + |mask|..b + |mask|] == [];
    } else {
      var head := mask[..|mask| - 1];
      PastSplit(args, b, head);
      SplitNext(args, b, head, Past(head));
      assert mask == head + [true];
    }
  }

  /** Further keys like Show, so that the predicates below are shut apart from each other: proofs
      about whole calls go by the lemmas instead and stay small. */
  ghost predicate ShowLayout(k: nat) { true }
  ghost predicate ShowGathered(k: nat) { true }
  ghost predicate ShowReported(k: nat) { true }

  /** argv part way through a run: behind position b come the consumed elements seen before
      the block of skipped ones, that block, the consumed elements seen after it, and the
      part not reached yet. ns and ne delimit the block, -1 standing for "not yet known". */
  ghost predicate Layout(args: seq<string>, now: seq<string>, b: nat, mask: seq<bool>, ns: int, ne: int) {
    forall k: nat {:trigger ShowLayout(k)} :: ShowLayout(k) ==> LayoutIs(args, now, b, mask, ns, ne)
  }

  ghost predicate LayoutIs(args: seq<string>, now: seq<string>, b: nat, mask: seq<bool>, ns: int, ne: int) {
    var i := b + |mask|;
    && i <= |args|
    && var c, s := Taken(args, b, mask), Left(args, b, mask);
       && |c| + |s| == |mask|
       && if ns == -1 then
            ne == -1 && s == [] && now == Flat(args, b, i, c, [], [])
          else
            && s != [] && b <= ns <= b + |c|
            && (if ne == -1 then ns == b + |c|
                else ne == ns + |s| && ns == b + |Taken(args, b, mask[..Past(mask)])|)
            && now == Flat(args, b, i, c[..ns - b], s, c[ns - b..])
  }

  lemma LayoutStart(args: seq<string>, b: nat)
    requires b <= |args|
    ensures Layout(args, args, b, [], -1, -1)
  {
    assert ShowLayout(0);
  }

  lemma LayoutBounds(args: seq<string>, now: seq<string>, b: nat, mask: seq<bool>, ns: int, ne: int)
    requires Layout(args, now, b, mask, ns, ne)
    ensures var i := b + |mask|;
            && i <= |args| == |now| && now[i..] == args[i..]
            && (ns == -1 ==> ne == -1)
            && (ns != -1 ==> b <= ns < i)
            && (ne != -1 ==> ns < ne <= i)
  {
    assert ShowLayout(0);
  }

  lemma Skip(args: seq<string>, now: seq<string>, b: nat, mask: seq<bool>, ns: int, ns': int)
    requires Layout(args, now, b, mask, ns, -1) && b + |mask| < |args|
    requires ns' == if ns == -1 then b + |mask| else ns
    ensures Layout(args, now, b, mask + [false], ns', -1)
  {
    assert ShowLayout(0);
    var i, c, s := b + |mask|, Taken(args, b, mask), Left(args, b, mask);
    NextElement(args, b, mask, false);
    FlatSkip(args, b, i, c, s);
    assert c[..|c|] == c && c[|c|..] == [];
  }

  lemma Consume(args: seq<string>, now: seq<string>, b: nat, mask: seq<bool>, ns: int, ne: int)
    requires Layout(args, now, b, mask, ns, ne) && b + |mask| < |args|
    requires ns != -1 ==> ne != -1
    ensures Layout(args, now, b, mask + [true], ns, ne)
  {
    if ns == -1 {
      LayoutBounds(args, now, b, mask, ns, ne);
      ConsumeUnbroken(args, now, b, mask);
    } else {
      ConsumeBehind(args, now, b, mask, ns, ne);
    }
  }

  lemma ConsumeUnbroken(args: seq<string>, now: seq<string>, b: nat, mask: seq<bool>)
    requires Layout(args, now, b, mask, -1, -1) && b + |mask| < |args|
    ensures Layout(args, now, b, mask + [true], -1, -1)
  {
    UnbrokenLayout(args, now, b, mask);
    NextElement(args, b, mask, true);
    FlatTake(args, b, b + |mask|, Taken(args, b, mask), [], []);
    assert ShowLayout(0);
  }

  lemma ConsumeBehind(args: seq<string>, now: seq<string>, b: nat, mask: seq<bool>, ns: int, ne: int)
    requires Layout(args, now, b, mask, ns, ne) && b + |mask| < |args| && ns != -1 && ne != -1
    ensures Layout(args, now, b, mask + [true], ns, ne)
  {
    var i := b + |mask|;
    var x, s, y := OpenBlock(args, now, b, mask, ns, ne);
    NextElement(args, b, mask, true);
    PastNext(mask, true);
    FlatTake(args, b, i, x, s, y);
    Assoc(x, y, [args[i]]);
    CloseOpenBlock(args, now, b, mask + [true], ns, ne, x, s, y + [args[i]]);
  }

  lemma CloseOpenBlock(args: seq<string>, now: seq<string>, b: nat, mask: seq<bool>, ns: int, ne: int,
                       x: seq<string>, s: seq<string>, y: seq<string>)
    requires b + |mask| <= |args| && now == Flat(args, b, b + |mask|, x, s, y)
    requires x + y == Taken(args, b, mask) && s == Left(args, b, mask) != [] && |x| + |s| + |y| == |mask|
    requires ns == b + |x| && ne == ns + |s| && |x| == |Taken(args, b, mask[..Past(mask)])|
    ensures Layout(args, now, b, mask, ns, ne)
  {
    assert ShowLayout(0);
    var c := Taken(args, b, mask);
    assert c[..|x|] == x && c[|x|..] == y;
  }

  lemma {:induction false} ConsumeSome(args: seq<string>, now: seq<string>, b: nat, mask: seq<bool>,
                                       ns: int, ne: int, n: nat)
    requires Layout(args, now, b, mask, ns, ne) && b + |mask| + n <= |args|
    requires ns != -1 ==> ne != -1
    ensures Layout(args, now, b, mask + Consumed(n), ns, ne)
    decreases n
  {
    if n == 0 {
      assert mask + Consumed(0) == mask;
    } else {
      ConsumeSome(args, now, b, mask, ns, ne, n - 1);
      Consume(args, now, b, mask + Consumed(n - 1), ns, ne);
      assert mask + Consumed(n - 1) + [true] == mask + Consumed(n);
    }
  }

  /** A block that reaches up to position i is closed there. */
  lemma CloseBlock(args: seq<string>, now: seq<string>, b: nat, mask: seq<bool>, ns: int, i: nat)
    requires Layout(args, now, b, mask, ns, -1) && ns != -1 && i == b + |mask| && Past(mask) == |mask|
    ensures Layout(args, now, b, mask, ns, i)
  {
    assert ShowLayout(0);
    assert mask[..|mask|] == mask;
  }

  /** The three parts of argv behind position b when elements have been skipped. */
  lemma OpenBlock(args: seq<string>, now: seq<string>, b: nat, mask: seq<bool>, ns: int, ne: int)
    returns (x: seq<string>, s: seq<string>, y: seq<string>)
    requires Layout(args, now, b, mask, ns, ne) && ns != -1
    ensures b + |mask| <= |args| && now == Flat(args, b, b + |mask|, x, s, y)
    ensures x + y == Taken(args, b, mask) && s == Left(args, b, mask) != [] && |x| + |s| + |y| == |mask|
    ensures ns == b + |x| && (ne != -1 ==> ne == ns + |s| && |x| == |Taken(args, b, mask[..Past(mask)])|)
  {
    assert ShowLayout(0);
    var c := Taken(args, b, mask);
    x, s, y := c[..ns - b], Left(args, b, mask), c[ns - b..];
  }

  /** Exchanging the skipped block with the options after it completes the partition so far. */
  lemma GatherFlat(args: seq<string>, now: seq<string>, b: nat, mask: seq<bool>, ns: int, ne: int, i: nat)
    requires Layout(args, now, b, mask, ns, ne) && i == b + |mask|
    requires 0 <= ns < ne <= i <= |now|
    ensures i <= |args| && Exchange(now, ns, ne, i) == Flat(args, b, i, Taken(args, b, mask), Left(args, b, mask), [])
    ensures i - (ne - ns) == b + |Taken(args, b, mask)| && Left(args, b, mask) != []
    ensures |Taken(args, b, mask)| + |Left(args, b, mask)| == |mask|
  {
    var x, s, y := OpenBlock(args, now, b, mask, ns, ne);
    FlatExchange(args, b, i, x, s, y, ns, ne, i);
  }

  lemma Gather(args: seq<string>, now: seq<string>, b: nat, mask: seq<bool>, ns: int, ne: int, i: nat,
               next: seq<string>, k: int)
    requires Layout(args, now, b, mask, ns, ne) && i == b + |mask|
    requires 0 <= ns < ne <= i <= |now| && next == Exchange(now, ns, ne, i) && k == i - (ne - ns)
    ensures Gathered(args, next, b, mask, k)
    ensures Layout(args, next, b, mask, k, -1)
  {
    GatherFlat(args, now, b, mask, ns, ne, i);
    GatheredLayout(args, next, b, mask, k);
  }

  lemma GatheredLayout(args: seq<string>, next: seq<string>, b: nat, mask: seq<bool>, k: int)
    requires b + |mask| <= |args| && next == Partition(args, b, mask) && k == b + |Taken(args, b, mask)|
    requires Left(args, b, mask) != [] && |Taken(args, b, mask)| + |Left(args, b, mask)| == |mask|
    ensures Gathered(args, next, b, mask, k) && Layout(args, next, b, mask, k, -1)
  {
    assert ShowLayout(0) && ShowGathered(0);
    var c := Taken(args, b, mask);
    assert c[..|c|] == c && c[|c|..] == [];
  }

  /** If nothing follows the skipped block, the partition is already there. */
  lemma AlreadyGathered(args: seq<string>, now: seq<string>, b: nat, mask: seq<bool>, ns: int)
    requires Layout(args, now, b, mask, ns, -1)
    ensures Gathered(args, now, b, mask, if ns == -1 then b + |mask| else ns)
  {
    assert ShowLayout(0) && ShowGathered(0);
    var c := Taken(args, b, mask);
    assert c[..|c|] == c && c[|c|..] == [];
  }

  /** A run that stops in the middle leaves argv partitioned up to the last skipped element only. */
  lemma LeftHalfway(args: seq<string>, now: seq<string>, b: nat, mask: seq<bool>, ns: int, ne: int)
    requires Layout(args, now, b, mask, ns, ne) && (ns != -1 ==> ne != -1)
    ensures Halfway(args, now, b, mask)
  {
    assert ShowGathered(0);
    var p := Past(mask);
    if ns == -1 {
      NothingSkipped(args, now, b, mask);
    } else {
      var x, s, y := OpenBlock(args, now, b, mask, ns, ne);
      PastSplit(args, b, mask);
      SplitAt(x, y, Taken(args, b, mask[..p]), args[b + p..b + |mask|]);
      FlatBack(args, b, b + p, b + |mask|, x, s);
    }
  }

  lemma NothingSkipped(args: seq<string>, now: seq<string>, b: nat, mask: seq<bool>)
    requires Layout(args, now, b, mask, -1, -1)
    ensures b + |mask| <= |args| && now == Partition(args, b, mask[..Past(mask)])
  {
    UnbrokenLayout(args, now, b, mask);
    NothingLeft(args, b, mask);
    AllTaken(args, b, mask);
    FlatWhole(args, b, b + |mask|);
    PartitionOfNothing(args, b, mask[..Past(mask)]);
  }

  lemma AllTaken(args: seq<string>, b: nat, mask: seq<bool>)
    requires b + |mask| <= |args| && Past(mask) == 0
    ensures Taken(args, b, mask) == args[b..b + |mask|]
  {
    PastSplit(args, b, mask);
    var none := mask[..0];
    assert Taken(args, b, none) == [];
  }

  lemma PartitionOfNothing(args: seq<string>, b: nat, none: seq<bool>)
    requires b <= |args| && none == []
    ensures Partition(args, b, none) == args
  {
    FlatWhole(args, b, b);
    assert args[b..b] == [];
  }

  lemma UnbrokenLayout(args: seq<string>, now: seq<string>, b: nat, mask: seq<bool>)
    requires Layout(args, now, b, mask, -1, -1)
    ensures b + |mask| <= |args| && now == Flat(args, b, b + |mask|, Taken(args, b, mask), [], [])
    ensures Left(args, b, mask) == [] && |Taken(args, b, mask)| == |mask|
  {
    assert ShowLayout(0);
  }

  lemma FlatWhole<T>(args: seq<T>, b: nat, i: nat)
    requires b <= i <= |args|
    ensures Flat(args, b, i, args[b..i], [], []) == args
  {
  }

  lemma SplitAt<T>(x: seq<T>, y: seq<T>, u: seq<T>, v: seq<T>)
    requires x + y == u + v && |x| == |u|
    ensures x == u && y == v
  {
    assert x == (x + y)[..|x|] && y == (x + y)[|x|..];
    assert u == (u + v)[..|u|] && v == (u + v)[|u|..];
  }

  lemma FlatBack<T>(args: seq<T>, b: nat, p: nat, i: nat, x: seq<T>, s: seq<T>)
    requires b <= p <= i <= |args|
    ensures Flat(args, b, i, x, s, args[p..i]) == Flat(args, b, p, x, s, [])
  {
    assert args[p..] == args[p..i] + args[i..];
  }

  lemma {:induction false} NothingLeft(args: seq<string>, b: nat, mask: seq<bool>)
    requires b + |mask| <= |args|
    ensures Left(args, b, mask) == [] <==> Past(mask) == 0
    decreases |mask|
  {
    if mask != [] {
      var n := |mask| - 1;
      assert mask == mask[..n] + [mask[n]];
      NextElement(args, b, mask[..n], mask[n]);
      NothingLeft(args, b, mask[..n]);
    }
  }

  ghost predicate Halfway(args: seq<string>, now: seq<string>, b: nat, mask: seq<bool>) {
    forall k: nat {:trigger ShowGathered(k)} :: ShowGathered(k) ==>
      b + |mask| <= |args| && now == Partition(args, b, mask[..Past(mask)])
  }

  /** The run over args from position b, seen from position i with `place` pending: the
      elements marked and the results so far, and then what remains. */
  ghost predicate Track(o: Syntax, args: seq<string>, b: nat, i: nat, place: string,
                        mask: seq<bool>, outs: seq<Outcome>)
  {
    forall k: nat {:trigger Show(k)} :: Show(k) ==> TrackIs(o, args, b, i, place, mask, outs)
  }

  ghost predicate TrackIs(o: Syntax, args: seq<string>, b: nat, i: nat, place: string,
                          mask: seq<bool>, outs: seq<Outcome>)
  {
    && b <= |args| && i <= |args| && (place != "" ==> i < |args|)
    && Run(o, args, b, "") == Run(o, args, i, place).Before(mask, outs)
  }

  /** The whole run from position b. */
  ghost predicate Reported(o: Syntax, args: seq<string>, b: nat, mask: seq<bool>, outs: seq<Outcome>, ending: Ending) {
    forall k: nat {:trigger ShowReported(k)} :: ShowReported(k) ==>
      b <= |args| && Run(o, args, b, "") == Walk(mask, outs, ending)
  }

  /** now is the stable partition of args, and i the position behind the consumed elements. */
  ghost predicate Gathered(args: seq<string>, now: seq<string>, b: nat, mask: seq<bool>, i: int) {
    forall k: nat {:trigger ShowGathered(k)} :: ShowGathered(k) ==>
      b + |mask| <= |args| && now == Partition(args, b, mask) && i == b + |Taken(args, b, mask)|
  }

  lemma BeforeBefore(w: Walk, m0: seq<bool>, o0: seq<Outcome>, m1: seq<bool>, o1: seq<Outcome>)
    ensures w.Before(m1, o1).Before(m0, o0) == w.Before(m0 + m1, o0 + o1)
    ensures w.Before([], []) == w && w.Before(m0, []).outs == w.outs
  {
    assert m0 + m1 + w.mask == m0 + (m1 + w.mask);
    assert o0 + o1 + w.outs == o0 + (o1 + w.outs);
  }

  lemma TrackBounds(o: Syntax, args: seq<string>, b: nat, i: nat, place: string,
                    mask: seq<bool>, outs: seq<Outcome>)
    requires Track(o, args, b, i, place, mask, outs)
    ensures b <= |args| && i <= |args| && (place != "" ==> i < |args|)
  {
    assert Show(0);
  }

  /** What follows the current element is where it was. */
  lemma NextArgSuffix(args: seq<string>, now: seq<string>, i: nat)
    requires i < |args| == |now| && now[i..] == args[i..]
    ensures NextArg(now, i) == NextArg(args, i)
  {
    if i + 1 < |args| {
      assert now[i..][1] == args[i..][1];
    }
  }

  lemma TrackStart(o: Syntax, args: seq<string>, b: nat)
    requires b <= |args|
    ensures Track(o, args, b, b, "", [], [])
  {
    assert Show(0);
    BeforeBefore(Run(o, args, b, ""), [], [], [], []);
  }

  lemma TrackNonOption(o: Syntax, args: seq<string>, b: nat, i: nat, mask: seq<bool>, outs: seq<Outcome>)
    requires Track(o, args, b, i, "", mask, outs) && i < |args| && KindOf(o, args[i]) == NonOption
    ensures o.allargs ==> Track(o, args, b, i + 1, "", mask + [true], outs + [InOrder(args[i])])
    ensures !o.allargs && o.permute ==> Track(o, args, b, i + 1, "", mask + [false], outs)
    ensures !o.allargs && !o.permute ==> Reported(o, args, b, mask, outs, AtNonOption)
  {
    assert Show(0) && ShowReported(0);
    BeforeBefore(Run(o, args, i + 1, ""), mask, outs, [true], [InOrder(args[i])]);
    BeforeBefore(Run(o, args, i + 1, ""), mask, outs, [false], []);
    assert outs + [] == outs && mask + [] == mask;
  }

  lemma TrackEnd(o: Syntax, args: seq<string>, b: nat, i: nat, mask: seq<bool>, outs: seq<Outcome>)
    requires Track(o, args, b, i, "", mask, outs)
    ensures i == |args| ==> Reported(o, args, b, mask, outs, EndOfArgs)
    ensures i < |args| && KindOf(o, args[i]) == Dashes ==>
              Reported(o, args, b, mask + [true], outs, AtDoubleDash)
    ensures i < |args| && KindOf(o, args[i]) == Cluster ==>
              Track(o, args, b, i, Letters(args[i]), mask, outs)
  {
    assert Show(0) && ShowReported(0);
    assert outs + [] == outs && mask + [] == mask;
  }

  lemma TrackLetter(o: Syntax, args: seq<string>, b: nat, i: nat, place: string,
                    mask: seq<bool>, outs: seq<Outcome>)
    requires Track(o, args, b, i, place, mask, outs) && place != ""
    ensures var r := ReadLetter(o, place, NextArg(args, i));
            if r.Stuck? then Reported(o, args, b, mask, outs, AtStuck)
            else Track(o, args, b, i + r.used, r.rest, mask + Consumed(r.used), outs + [r.out])
  {
    assert Show(0) && ShowReported(0);
    var r := ReadLetter(o, place, NextArg(args, i));
    if r.Read? {
      ReadLetterProgress(o, place, NextArg(args, i));
      BeforeBefore(Run(o, args, i + r.used, r.rest), mask, outs, Consumed(r.used), [r.out]);
    } else {
      assert outs + [] == outs && mask + [] == mask;
    }
  }

  /** The static state of getopt_internal, the variables it shares with its caller, and the
      history of the current run: argv and optind when it began, which elements have been
      consumed or skipped, and what was reported. */
  class Scanner {
    var optind: nat
    var optreset: bool
    var optopt: char
    var optarg: Option<string>
    var place: string
    var nonoptStart: int
    var nonoptEnd: int
    ghost var begun: bool
    ghost var args: seq<string>
    ghost var base: nat
    ghost var mask: seq<bool>
    ghost var outs: seq<Outcome>

    constructor ()
      ensures optind == 1 && !optreset && !begun
      ensures forall o, now :: |now| >= 1 ==> Between(o, now)
    {
      optind, optreset, optopt, optarg := 1, false, '?', None;
      place, nonoptStart, nonoptEnd := "", -1, -1;
      begun, args, base, mask, outs := false, [], 0, [], [];
    }

    /** The next call begins a new run. */
    ghost predicate Restarting()
      reads this
    {
      optreset || optind == 0 || !begun
    }

    /** Where that run begins. */
    ghost function Start(): nat
      reads this
    {
      if optind == 0 then 1 else optind
    }

    /** now is argv with the elements before optind marked. */
    ghost predicate Marked(o: Syntax, now: seq<string>)
      reads this
    {
      && 0 < optind == base + |mask| <= |args|
      && Layout(args, now, base, mask, nonoptStart, nonoptEnd)
      && (nonoptStart != -1 ==> o.permute && !o.allargs)
      && (nonoptStart != -1 && nonoptEnd == -1 ==> Past(mask) == |mask|)
    }

    /** Between elements: an option, if any, follows the skipped block's end. */
    ghost predicate Scanning(o: Syntax, now: seq<string>)
      reads this
    {
      && Marked(o, now) && (nonoptEnd != -1 ==> nonoptEnd < optind)
      && Track(o, args, base, optind, "", mask, outs)
    }

    /** Inside the letters of an element. */
    ghost predicate Reading(o: Syntax, now: seq<string>)
      reads this
    {
      && Marked(o, now) && (nonoptStart != -1 ==> nonoptEnd != -1)
      && place != "" && Track(o, args, base, optind, place, mask, outs)
    }

    /** The state between two calls. */
    ghost predicate Between(o: Syntax, now: seq<string>)
      reads this
    {
      if Restarting() then
        Start() <= |now| && (optreset || optind == 0 || (place == "" && nonoptStart == nonoptEnd == -1))
      else if place == "" then Scanning(o, now) else Reading(o, now)
    }

    /** The state after a run: what it reported, and argv partitioned with optind behind the
        consumed elements -- unless it got stuck, when both are as the last skipped element
        left them. */
    ghost predicate Ended(o: Syntax, now: seq<string>, ending: Ending)
      reads this
    {
      && Reported(o, args, base, mask, outs, ending)
      && if ending == AtStuck then
           optind == base + |mask| && Halfway(args, now, base, mask)
         else
           && Gathered(args, now, base, mask, optind)
           && nonoptStart == nonoptEnd == -1
    }

    /** Exchange the skipped block with what was consumed after it. */
    method GatherSkipped(argv: array<string>)
      requires optind == base + |mask| && nonoptEnd != -1
      requires Layout(args, argv[..], base, mask, nonoptStart, nonoptEnd)
      requires nonoptEnd < optind
      modifies argv
      ensures 0 <= nonoptStart < nonoptEnd
      ensures Gathered(args, argv[..], base, mask, optind - (nonoptEnd - nonoptStart))
      ensures Layout(args, argv[..], base, mask, optind - (nonoptEnd - nonoptStart), -1)
    {
      ghost var now, k := argv[..], optind - (nonoptEnd - nonoptStart);
      LayoutBounds(args, now, base, mask, nonoptStart, nonoptEnd);
      Permute(nonoptStart, nonoptEnd, optind, argv);
      Gather(args, now, base, mask, nonoptStart, nonoptEnd, optind, argv[..], k);
    }

    /** Gather what was skipped, if anything, and point behind what was consumed. */
    method Finish(argv: array<string>)
      requires optind == base + |mask|
      requires Layout(args, argv[..], base, mask, nonoptStart, nonoptEnd)
      requires nonoptEnd != -1 ==> nonoptEnd < optind
      modifies this`optind, this`nonoptStart, this`nonoptEnd, argv
      ensures Gathered(args, argv[..], base, mask, optind) && nonoptStart == nonoptEnd == -1
    {
      LayoutBounds(args, argv[..], base, mask, nonoptStart, nonoptEnd);
      if nonoptEnd != -1 {
        GatherSkipped(argv);
        optind := optind - (nonoptEnd - nonoptStart);
      } else {
        AlreadyGathered(args, argv[..], base, mask, nonoptStart);
        if nonoptStart != -1 {
          optind := nonoptStart;
        }
      }
      nonoptStart, nonoptEnd := -1, -1;
    }

    /** Make the skipped block end just before optind: it begins there, or is moved up. */
    method MoveBlockUp(argv: array<string>)
      requires optind == base + |mask| < |args|
      requires Layout(args, argv[..], base, mask, nonoptStart, nonoptEnd)
      requires nonoptEnd != -1 ==> nonoptEnd < optind
      modifies this`nonoptStart, this`nonoptEnd, argv
      ensures nonoptStart != -1 && nonoptEnd == -1
      ensures Layout(args, argv[..], base, mask + [false], nonoptStart, -1)
    {
      LayoutBounds(args, argv[..], base, mask, nonoptStart, nonoptEnd);
      if nonoptStart == -1 {
        nonoptStart := optind;
        Skip(args, argv[..], base, mask, -1, nonoptStart);
      } else {
        if nonoptEnd != -1 {
          GatherSkipped(argv);
          nonoptStart := optind - (nonoptEnd - nonoptStart);
          nonoptEnd := -1;
        }
        Skip(args, argv[..], base, mask, nonoptStart, nonoptStart);
      }
    }

    /** Take the element at optind into the skipped block. */
    method AddToSkipped(argv: array<string>)
      requires optind == base + |mask| < |args|
      requires Layout(args, argv[..], base, mask, nonoptStart, nonoptEnd)
      requires nonoptEnd != -1 ==> nonoptEnd < optind
      modifies this`optind, this`nonoptStart, this`nonoptEnd, this`mask, argv
      ensures optind == old(optind) + 1 && mask == old(mask) + [false]
      ensures nonoptStart != -1 && nonoptEnd == -1 && Past(mask) == |mask|
      ensures Layout(args, argv[..], base, mask, nonoptStart, nonoptEnd)
    {
      MoveBlockUp(argv);
      PastNext(mask, false);
      optind := optind + 1;
      mask := mask + [false];
    }

    /** The end of argv: gather what was skipped and point at it. */
    method EndOfArgv(o: Syntax, argv: array<string>)
      requires Scanning(o, argv[..]) && optind == |args|
      modifies this`optind, this`place, this`nonoptStart, this`nonoptEnd, argv
      ensures Ended(o, argv[..], EndOfArgs) && place == ""
    {
      TrackEnd(o, args, base, optind, mask, outs);
      place := "";
      Finish(argv);
    }

    /** An element that is no option: skip it, first joining the skipped block to it. */
    method SkipElement(o: Syntax, argv: array<string>)
      requires Scanning(o, argv[..]) && optind < |args| == argv.Length
      requires KindOf(o, args[optind]) == NonOption && o.permute && !o.allargs
      modifies this`optind, this`nonoptStart, this`nonoptEnd, this`mask, argv
      ensures Scanning(o, argv[..]) && optind == old(optind) + 1
    {
      TrackNonOption(o, args, base, optind, mask, outs);
      AddToSkipped(argv);
    }

    /** "--" ends the options: consume it and gather what was skipped before it. */
    method StopAtDashes(o: Syntax, argv: array<string>)
      requires Marked(o, argv[..]) && Track(o, args, base, optind, "", mask, outs)
      requires nonoptStart != -1 ==> nonoptEnd != -1
      requires optind < |args| == argv.Length && KindOf(o, args[optind]) == Dashes
      modifies this`optind, this`place, this`nonoptStart, this`nonoptEnd, this`mask, argv
      ensures Ended(o, argv[..], Ending.AtDoubleDash) && place == ""
    {
      TrackEnd(o, args, base, optind, mask, outs);
      LayoutBounds(args, argv[..], base, mask, nonoptStart, nonoptEnd);
      Consume(args, argv[..], base, mask, nonoptStart, nonoptEnd);
      optind := optind + 1;
      mask := mask + [true];
      place := "";
      Finish(argv);
    }

    /** An option begins: if a skipped block is open, it ends here. */
    method MarkBlockEnd(o: Syntax, ghost now: seq<string>)
      requires Marked(o, now)
      modifies this`nonoptEnd
      ensures Marked(o, now) && (nonoptStart != -1 ==> nonoptEnd != -1)
    {
      if nonoptStart != -1 && nonoptEnd == -1 {
        CloseBlock(args, now, base, mask, nonoptStart, optind);
        nonoptEnd := optind;
      }
    }

    /** Pass over elements that are no options, as long as they are to be skipped. */
    method SkipOthers(o: Syntax, argv: array<string>)
      requires Scanning(o, argv[..]) && |args| == argv.Length
      modifies this`optind, this`nonoptStart, this`nonoptEnd, this`mask, argv
      ensures Scanning(o, argv[..]) && optind >= old(optind) && optind <= |args|
      ensures optind < |args| ==>
                argv[optind] == args[optind] && (KindOf(o, args[optind]) == NonOption ==> o.allargs || !o.permute)
    {
      LayoutBounds(args, argv[..], base, mask, nonoptStart, nonoptEnd);
      while optind < argv.Length && KindOf(o, argv[optind]) == NonOption && o.permute && !o.allargs
        invariant Scanning(o, argv[..]) && old(optind) <= optind <= |args|
        invariant argv[..][optind..] == args[optind..]
      {
        assert argv[optind] == argv[..][optind..][0] == args[optind];
        SkipElement(o, argv);
        LayoutBounds(args, argv[..], base, mask, nonoptStart, nonoptEnd);
      }
      if optind < argv.Length {
        assert argv[optind] == argv[..][optind..][0] == args[optind];
      }
    }

    /** Report an element that is no option as one of its own. */
    method TakeInOrder(o: Syntax, argv: array<string>) returns (out: Outcome)
      requires Scanning(o, argv[..]) && optind < |args| == argv.Length && argv[optind] == args[optind]
      requires KindOf(o, args[optind]) == NonOption && o.allargs
      modifies this`optind, this`optarg, this`mask, this`outs
      ensures Scanning(o, argv[..]) && outs == old(outs) + [out] && optind == old(optind) + 1
      ensures out.InOrder? && optarg == Some(out.element)
    {
      TrackNonOption(o, args, base, optind, mask, outs);
      Consume(args, argv[..], base, mask, nonoptStart, nonoptEnd);
      out := InOrder(argv[optind]);
      optarg := Some(argv[optind]);
      optind := optind + 1;
      mask, outs := mask + [true], outs + [out];
    }

    /** Without permutation the first element that is no option ends the run. */
    lemma StopAtNonOption(o: Syntax, now: seq<string>)
      requires Scanning(o, now) && optind < |args|
      requires KindOf(o, args[optind]) == NonOption && !o.allargs && !o.permute
      ensures Ended(o, now, AtNonOption)
    {
      TrackNonOption(o, args, base, optind, mask, outs);
      LayoutBounds(args, now, base, mask, nonoptStart, nonoptEnd);
      AlreadyGathered(args, now, base, mask, -1);
    }

    /** Start reading the letters of an element. */
    method StartCluster(o: Syntax, argv: array<string>)
      requires Marked(o, argv[..]) && Track(o, args, base, optind, "", mask, outs)
      requires nonoptStart != -1 ==> nonoptEnd != -1
      requires optind < |args| == argv.Length && argv[optind] == args[optind]
      requires KindOf(o, args[optind]) == Cluster
      modifies this`place
      ensures Reading(o, argv[..])
    {
      TrackEnd(o, args, base, optind, mask, outs);
      place := Letters(argv[optind]);
    }

    /** The part of a call that looks for the next option when no letters are pending: it
        passes over other elements, and stops the run at the end, at "--", or at the first
        other element if they are not to be passed over. */
    method ScanElement(o: Syntax, argv: array<string>) returns (r: Option<Outcome>)
      requires Scanning(o, argv[..]) && |args| == argv.Length
      modifies this`optind, this`optarg, this`place, this`nonoptStart, this`nonoptEnd, this`mask, this`outs, argv
      ensures r == None ==> Reading(o, argv[..]) && outs == old(outs) && optind >= old(optind)
      ensures r == Some(Done) ==>
        place == "" && outs == old(outs) && exists e :: e != AtStuck && Ended(o, argv[..], e)
      ensures r.Some? && r != Some(Done) ==>
        && place == "" && Scanning(o, argv[..]) && outs == old(outs) + [r.value] && optind > old(optind)
        && r.value.InOrder? && optarg == Some(r.value.element)
      ensures r.None? || r == Some(Done) ==> optarg == old(optarg)
    {
      SkipOthers(o, argv);
      if optind >= argv.Length {
        EndOfArgv(o, argv);
        return Some(Done);
      }
      var kind := KindOf(o, argv[optind]);
      if kind == NonOption {
        place := "";
        if o.allargs {
          var out := TakeInOrder(o, argv);
          return Some(out);
        }
        StopAtNonOption(o, argv[..]);
        return Some(Done);
      }
      MarkBlockEnd(o, argv[..]);
      if kind == Dashes {
        StopAtDashes(o, argv);
        return Some(Done);
      }
      StartCluster(o, argv);
      return None;
    }

    /** Read one letter of the current element. */
    method ReadPlace(o: Syntax, argv: array<string>) returns (r: Reading)
      requires place != "" && optind < argv.Length && optarg == None
      modifies this`optind, this`optarg, this`optopt, this`place
      ensures r == ReadLetter(o, old(place), NextArg(argv[..], old(optind)))
      ensures r.Read? ==> optind == old(optind) + r.used && place == r.rest
      ensures r.Read? && r.out.Letter? ==> optarg == r.out.arg
      ensures r.Read? && !r.out.Letter? ==> optarg == None && optopt == r.out.c
      ensures r.Stuck? ==> optind == old(optind) && place == "" && optarg == None
    {
      var c := place[0];
      place := place[1..];
      var k := Find(o.letters, c);
      if c == ':' || (c == '-' && place != "") || k == -1 {
        if c == '-' && place == "" {
          return Stuck;
        }
        r := Read(BadLetter(c), if place == "" then 1 else 0, place);
        if place == "" {
          optind := optind + 1;
        }
        optopt := c;
        return;
      }
      if !Colon(o.letters, k + 1) {
        r := Read(Letter(c, None), if place == "" then 1 else 0, place);
        if place == "" {
          optind := optind + 1;
        }
        return;
      }
      var first := optind;
      if place != "" {
        optarg := Some(place);
      } else if !Colon(o.letters, k + 2) {
        optind := optind + 1;
        if optind >= argv.Length {
          place := "";
          optopt := c;
          return Read(MissingArgument(c, if Colon(o.letters, 0) then ':' else '?'), 1, "");
        }
        optarg := Some(argv[optind]);
      } else if !o.permute {
        if optind + 1 < argv.Length && !(argv[optind + 1] != "" && argv[optind + 1][0] == '-') {
          optind := optind + 1;
          optarg := Some(argv[optind]);
        }
      }
      place := "";
      optind := optind + 1;
      r := Read(Letter(c, optarg), optind - first, "");
    }

    /** The part of a call that reports the next letter of the current element. */
    method ReadNext(o: Syntax, argv: array<string>) returns (out: Outcome)
      requires Reading(o, argv[..]) && |args| == argv.Length && optarg == None && begun
      modifies this`optind, this`optarg, this`optopt, this`place, this`mask, this`outs
      ensures out != Done ==>
        && (if place == "" then Scanning(o, argv[..]) else Reading(o, argv[..]))
        && outs == old(outs) + [out]
        && (optind > old(optind) || (optind == old(optind) && place != "" && |place| < |old(place)|))
      ensures out == Done ==> place == "" && Ended(o, argv[..], AtStuck) && outs == old(outs)
      ensures !out.InOrder? && optarg == if out.Letter? then out.arg else None
    {
      TrackBounds(o, args, base, optind, place, mask, outs);
      LayoutBounds(args, argv[..], base, mask, nonoptStart, nonoptEnd);
      NextArgSuffix(args, argv[..], optind);
      TrackLetter(o, args, base, optind, place, mask, outs);
      ReadLetterProgress(o, place, NextArg(args, optind));
      var r := ReadPlace(o, argv);
      if r.Stuck? {
        LeftHalfway(args, argv[..], base, mask, nonoptStart, nonoptEnd);
        return Done;
      }
      ConsumeSome(args, argv[..], base, mask, nonoptStart, nonoptEnd, r.used);
      out := r.out;
      mask, outs := mask + Consumed(r.used), outs + [out];
    }

    /** Begin a new run if one is due. */
    method Begin(o: Syntax, argv: array<string>)
      requires Between(o, argv[..]) && (begun ==> |args| == argv.Length)
      modifies this`optind, this`optreset, this`optarg, this`nonoptStart, this`nonoptEnd,
               this`begun, this`args, this`base, this`mask, this`outs
      ensures begun && optind != 0 && optarg == None && |args| == argv.Length
      ensures if old(Restarting())
              then Scanning(o, argv[..]) && (optreset || place == "")
                   && args == argv[..] && base == optind == old(Start()) && outs == []
              else !optreset && args == old(args) && base == old(base) && outs == old(outs)
                   && optind == old(optind) && Between(o, argv[..]) && !Restarting()
    {
      ghost var restarting := Restarting();
      if optind == 0 {
        optind, optreset := 1, true;
      }
      optarg := None;
      if optreset {
        nonoptStart, nonoptEnd := -1, -1;
      }
      if restarting {
        BeginRun(o, argv[..]);
      }
    }

    ghost method BeginRun(o: Syntax, now: seq<string>)
      requires 0 < optind <= |now| && nonoptStart == nonoptEnd == -1
      modifies this`begun, this`args, this`base, this`mask, this`outs
      ensures begun && args == now && base == optind && outs == [] && Scanning(o, now)
    {
      begun, args, base, mask, outs := true, now, optind, [], [];
      LayoutStart(args, base);
      TrackStart(o, args, base);
    }

    /** The rest of a call: look for an option if no letters are pending, and read one letter. */
    method Proceed(o: Syntax, argv: array<string>) returns (out: Outcome)
      requires begun && optind != 0 && optarg == None && |args| == argv.Length
      requires if optreset || place == "" then Scanning(o, argv[..]) else Reading(o, argv[..])
      modifies this`optind, this`optreset, this`optarg, this`optopt, this`place,
               this`nonoptStart, this`nonoptEnd, this`begun, this`mask, this`outs, argv
      ensures !optreset
      ensures out != Done ==>
        && begun && Between(o, argv[..]) && outs == old(outs) + [out]
        && Progressed(old(optind), if old(optreset) then "" else old(place))
      ensures out == Done ==>
        outs == old(outs) && place == "" && exists e :: Ended(o, argv[..], e) && (e != AtStuck ==> !begun)
      ensures optarg == match out { case Letter(_, arg) => arg case InOrder(e) => Some(e) case _ => None }
    {
      if optreset || place == "" {
        optreset := false;
        var r := ScanElement(o, argv);
        if r == Some(Done) {
          ghost var e :| e != AtStuck && Ended(o, argv[..], e);
          begun := false;
          assert Ended(o, argv[..], e);
          return Done;
        }
        if r.Some? {
          return r.value;
        }
      }
      out := ReadNext(o, argv);
    }

    /** One call of getopt_internal. */
    method Next(o: Syntax, argv: array<string>) returns (out: Outcome)
      requires Between(o, argv[..]) && (begun ==> |args| == argv.Length)
      modifies this, argv
      ensures !optreset && |args| == argv.Length
      ensures if old(Restarting()) then args == old(argv[..]) && base == old(Start())
              else args == old(args) && base == old(base)
      // A result other than Done goes on the list, and the scanner has moved on.
      ensures out != Done ==>
        && begun && Between(o, argv[..])
        && outs == (if old(Restarting()) then [] else old(outs)) + [out]
        && Progressed(if old(Restarting()) then old(Start()) else old(optind),
                      if old(Restarting()) then "" else old(place))
      // Done ends the run.
      ensures out == Done ==>
        && outs == (if old(Restarting()) then [] else old(outs))
        && place == "" && exists e :: Ended(o, argv[..], e) && (e != AtStuck ==> !begun)
      // Options report their argument in optarg.
      ensures optarg == match out { case Letter(_, arg) => arg case InOrder(e) => Some(e) case _ => None }
    {
      Begin(o, argv);
      out := Proceed(o, argv);
    }

    /** The scanner is behind the given position, or further into the letters there. */
    ghost predicate Progressed(i: nat, letters: string)
      reads this
    {
      i < optind <= |args| || (optind == i && place != "" && (letters == "" || |place| < |letters|))
    }

    /** A program's option loop: call until -1. */
    method ParseAll(o: Syntax, argv: array<string>) returns (found: seq<Outcome>)
      requires Between(o, argv[..]) && Restarting() && (begun ==> |args| == argv.Length)
      modifies this, argv
      ensures var was, b := old(argv[..]), old(Start());
              b <= |was| && var w := Run(o, was, b, ""); found == w.outs && Leaves(w, was, b, argv[..], optind)
    {
      found := [];
      var out := Next(o, argv);
      ghost var was, b := old(argv[..]), old(Start());
      while out != Done
        invariant args == was && base == b
        invariant out != Done ==> begun && !Restarting() && Between(o, argv[..]) && outs == found + [out]
        invariant out == Done ==> outs == found && exists e :: Ended(o, argv[..], e)
        decreases out != Done, |args| - optind, place == "", |place|
      {
        found := found + [out];
        out := Next(o, argv);
      }
      ghost var e :| Ended(o, argv[..], e);
      EndedMeans(o, argv[..], e);
    }

    lemma EndedMeans(o: Syntax, now: seq<string>, ending: Ending)
      requires Ended(o, now, ending)
      ensures base <= |args| && Run(o, args, base, "") == Walk(mask, outs, ending)
      ensures base + |mask| <= |args|
      ensures if ending == AtStuck then
                now == Partition(args, base, mask[..Past(mask)]) && optind == base + |mask|
              else
                now == Partition(args, base, mask) && optind == base + |Taken(args, base, mask)|
    {
      assert ShowReported(0) && ShowGathered(0) && ShowLayout(0);
    }
  }

  /** What a run leaves: argv partitioned, and optind behind the consumed elements; but a run that
      gets stuck has partitioned argv up to the last skipped element only, and stops where it is. */
  ghost predicate Leaves(w: Walk, was: seq<string>, b: nat, now: seq<string>, optind: int)
    requires b + |w.mask| <= |was|
  {
    if w.ending == AtStuck then
      now == Partition(was, b, w.mask[..Past(w.mask)]) && optind == b + |w.mask|
    else
      now == Partition(was, b, w.mask) && optind == b + |Taken(was, b, w.mask)|
  }

  // ---- what a run means for the caller ----

  /** Element k may be skipped. */
  ghost predicate MayBeSkipped(o: Syntax, args: seq<string>, k: nat)
    requires k < |args|
  {
    KindOf(o, args[k]) == NonOption && o.permute && !o.allargs
  }

  /** Position k, where a run that began at i stopped, is right for its ending. */
  ghost predicate StopFits(o: Syntax, args: seq<string>, i: nat, k: nat, ending: Ending)
    requires k <= |args|
  {
    match ending
    case EndOfArgs => k == |args|
    case AtDoubleDash => i < k && args[k - 1] == "--"
    case AtNonOption => k < |args| && KindOf(o, args[k]) == NonOption && !o.permute
    case AtStuck => k < |args| && KindOf(o, args[k]) == Cluster && '-' !in o.letters
                    && args[k][|args[k]| - 1] == '-'
  }

  ghost predicate MarksFit(o: Syntax, args: seq<string>, i: nat, w: Walk) {
    && i + |w.mask| <= |args|
    && StopFits(o, args, i, i + |w.mask|, w.ending)
    && forall k | 0 <= k < |w.mask| :: w.mask[k] || MayBeSkipped(o, args, i + k)
  }

  lemma MarksFitBefore(o: Syntax, args: seq<string>, i: nat, w: Walk, n: nat, mask: seq<bool>, outs: seq<Outcome>)
    requires MarksFit(o, args, i + n, w) && |mask| == n
    requires forall k | 0 <= k < n :: mask[k] || MayBeSkipped(o, args, i + k)
    ensures MarksFit(o, args, i, w.Before(mask, outs))
  {
    var m := w.Before(mask, outs).mask;
    forall k | 0 <= k < |m|
      ensures m[k] || MayBeSkipped(o, args, i + k)
    {
      if k >= n {
        assert w.mask[k - n] || MayBeSkipped(o, args, i + n + (k - n));
      }
    }
  }

  ghost predicate EndsWith(s: string, t: string) {
    |t| <= |s| && s[|s| - |t|..] == t
  }

  lemma EndsWithTail(s: string, t: string)
    requires EndsWith(s, t) && t != ""
    ensures EndsWith(s, t[1..])
  {
  }

  lemma StuckFits(o: Syntax, args: seq<string>, i: nat)
    requires i < |args| && EndsWith(args[i], "-") && KindOf(o, args[i]) == Cluster && '-' !in o.letters
    ensures MarksFit(o, args, i, Walk([], [], AtStuck))
  {
    assert args[i][|args[i]| - 1] == args[i][|args[i]| - 1..][0];
  }

  /** Only elements that are no options are skipped, and only when permuting; every ending is
      where it should be. A run gets stuck only inside an element whose last letter is a '-'
      that is not among the options. */
  lemma {:induction false} RunMarks(o: Syntax, args: seq<string>, i: nat)
    requires i <= |args|
    ensures MarksFit(o, args, i, Run(o, args, i, ""))
    decreases |args| - i, if i < |args| then |args[i]| + 1 else 0
  {
    if i < |args| {
      match KindOf(o, args[i]) {
        case NonOption =>
          if o.allargs || o.permute {
            RunMarks(o, args, i + 1);
            MarksFitBefore(o, args, i, Run(o, args, i + 1, ""), 1, [o.allargs],
                           if o.allargs then [InOrder(args[i])] else []);
          }
        case Dashes =>
        case Cluster => RunLetterMarks(o, args, i, Letters(args[i]));
      }
    }
  }

  lemma RunAfterLetter(o: Syntax, args: seq<string>, i: nat, place: string)
    requires place != "" && i < |args| && ReadLetter(o, place, NextArg(args, i)).Read?
    ensures var r := ReadLetter(o, place, NextArg(args, i));
            && i + r.used <= |args| && (r.rest != "" ==> i + r.used < |args|)
            && Run(o, args, i, place) == Run(o, args, i + r.used, r.rest).Before(Consumed(r.used), [r.out])
  {
    ReadLetterProgress(o, place, NextArg(args, i));
  }

  lemma {:induction false} RunLetterMarks(o: Syntax, args: seq<string>, i: nat, place: string)
    requires place != "" && i < |args| && EndsWith(args[i], place) && KindOf(o, args[i]) == Cluster
    ensures MarksFit(o, args, i, Run(o, args, i, place))
    decreases |args| - i, |place|
  {
    var r := ReadLetter(o, place, NextArg(args, i));
    ReadLetterRest(o, place, NextArg(args, i));
    ReadLetterProgress(o, place, NextArg(args, i));
    if r.Stuck? {
      StuckFits(o, args, i);
    } else {
      var next := i + r.used;
      if r.rest == "" {
        RunMarks(o, args, next);
      } else {
        EndsWithTail(args[i], place);
        RunLetterMarks(o, args, i, r.rest);
      }
      RunAfterLetter(o, args, i, place);
      MarksFitBefore(o, args, i, Run(o, args, next, r.rest), r.used, Consumed(r.used), [r.out]);
    }
  }
}
