/** When a run of getopt_internal gets stuck (compat/getopt.c): it returns -1 inside an element, at
    a trailing '-' that is no option, and does not permute. All conditions here are about argv
    before the run. */
module GetoptStuck {
  import opened Getopt
  import opened Wrappers

  /** In a cluster, everything behind c is its argument. */
  predicate TakesArgument(o: Syntax, c: char) {
    c != ':' && c != '-' && c in o.letters && Colon(o.letters, Find(o.letters, c) + 1)
  }

  /** '-' is no option, and is read as a letter at the end of these letters. */
  predicate TrailingDash(o: Syntax, place: string) {
    && '-' !in o.letters && place != "" && place[|place| - 1] == '-'
    && forall k | 0 <= k < |place| - 1 :: !TakesArgument(o, place[k])
  }

  /** c, the last letter of an element, has the next element as its argument. */
  predicate TakesNext(o: Syntax, c: char, next: Option<string>) {
    && TakesArgument(o, c) && next.Some?
    && (Colon(o.letters, Find(o.letters, c) + 2) ==> !o.permute && !(next.value != "" && next.value[0] == '-'))
  }

  /** How many elements a cluster with these letters takes, if it has no trailing dash. */
  function Span(o: Syntax, place: string, next: Option<string>): (n: nat)
    requires place != ""
    ensures n == 1 || (n == 2 && next.Some?)
  {
    if |place| == 1 then (if TakesNext(o, place[0], next) then 2 else 1)
    else if TakesArgument(o, place[0]) then 1
    else Span(o, place[1..], next)
  }

  /** The run from element i gets to a cluster with a trailing dash. */
  predicate MeetsTrailingDash(o: Syntax, args: seq<string>, i: nat)
    requires i <= |args|
    decreases |args| - i
  {
    i < |args| &&
    match KindOf(o, args[i]) {
      case NonOption => (o.allargs || o.permute) && MeetsTrailingDash(o, args, i + 1)
      case Dashes => false
      case Cluster =>
        var place := Letters(args[i]);
        TrailingDash(o, place) || MeetsTrailingDash(o, args, i + Span(o, place, NextArg(args, i)))
    }
  }

  /** On the way it skips an element. */
  predicate SkipsSome(o: Syntax, args: seq<string>, i: nat)
    requires i <= |args|
    decreases |args| - i
  {
    i < |args| &&
    match KindOf(o, args[i]) {
      case NonOption => if o.allargs then SkipsSome(o, args, i + 1) else o.permute
      case Dashes => false
      case Cluster =>
        var place := Letters(args[i]);
        !TrailingDash(o, place) && SkipsSome(o, args, i + Span(o, place, NextArg(args, i)))
    }
  }

  /** It has consumed, and not skipped, the element before the one where it stops; if there is
      none, this is `last`. */
  predicate LastTaken(o: Syntax, args: seq<string>, i: nat, last: bool)
    requires i <= |args|
    decreases |args| - i
  {
    if i == |args| then last
    else
      match KindOf(o, args[i]) {
        case NonOption => if o.allargs || o.permute then LastTaken(o, args, i + 1, o.allargs) else last
        case Dashes => true
        case Cluster =>
          var place := Letters(args[i]);
          if TrailingDash(o, place) then last
          else LastTaken(o, args, i + Span(o, place, NextArg(args, i)), true)
      }
  }

  lemma ReadNoDash(o: Syntax, place: string, next: Option<string>)
    requires place != "" && '-' !in o.letters
    ensures var r := ReadLetter(o, place, next);
      if place == "-" then r == Stuck
      else if |place| > 1 && !TakesArgument(o, place[0]) then r.Read? && r.used == 0 && r.rest == place[1..]
      else r.Read? && r.used == Span(o, place, next) && r.rest == ""
  {
  }

  lemma TrailingDashRest(o: Syntax, place: string)
    requires |place| > 1
    ensures TrailingDash(o, place) <==> !TakesArgument(o, place[0]) && TrailingDash(o, place[1..])
  {
    var rest := place[1..];
    if !TakesArgument(o, place[0]) && TrailingDash(o, rest) {
      forall k | 0 <= k < |place| - 1
        ensures !TakesArgument(o, place[k])
      {
        assert k > 0 ==> place[k] == rest[k - 1];
      }
    }
    if TrailingDash(o, place) {
      forall k | 0 <= k < |rest| - 1
        ensures !TakesArgument(o, rest[k])
      {
        assert rest[k] == place[k + 1];
      }
    }
  }

  /** A cluster takes its elements, unless it has a trailing dash. */
  ghost predicate ClusterRuns(o: Syntax, args: seq<string>, i: nat, place: string) {
    && place != "" && i < |args|
    && var w, n := Run(o, args, i, place), Span(o, place, NextArg(args, i));
       if TrailingDash(o, place) then w.mask == [] && w.ending == AtStuck
       else w.mask == Consumed(n) + Run(o, args, i + n, "").mask && w.ending == Run(o, args, i + n, "").ending
  }

  lemma {:induction false} ClusterRun(o: Syntax, args: seq<string>, i: nat, place: string)
    requires place != "" && i < |args| && '-' !in o.letters
    ensures ClusterRuns(o, args, i, place)
    decreases |place|
  {
    var next := NextArg(args, i);
    ReadNoDash(o, place, next);
    if |place| > 1 && !TakesArgument(o, place[0]) {
      TrailingDashRest(o, place);
      ClusterRun(o, args, i, place[1..]);
      RunAfterLetter(o, args, i, place);
    } else if place != "-" {
      RunAfterLetter(o, args, i, place);
    }
  }

  function Final(mask: seq<bool>, last: bool): bool {
    if mask == [] then last else mask[|mask| - 1]
  }

  /** What the walk is, seen in argv beforehand. */
  ghost predicate Foreseen(o: Syntax, args: seq<string>, i: nat, last: bool, mask: seq<bool>, ending: Ending)
    requires i <= |args|
  {
    && (ending == AtStuck <==> MeetsTrailingDash(o, args, i))
    && (false in mask <==> SkipsSome(o, args, i))
    && (LastTaken(o, args, i, last) <==> Final(mask, last))
  }

  lemma FinalAfter(head: seq<bool>, rest: seq<bool>, last: bool)
    requires head != []
    ensures Final(head + rest, last) == Final(rest, head[|head| - 1])
    ensures false in head + rest <==> false in head || false in rest
  {
  }

  lemma RunPasses(o: Syntax, args: seq<string>, i: nat)
    requires i < |args| && KindOf(o, args[i]) == NonOption && (o.allargs || o.permute)
    ensures Run(o, args, i, "").mask == [o.allargs] + Run(o, args, i + 1, "").mask
    ensures Run(o, args, i, "").ending == Run(o, args, i + 1, "").ending
  {
  }

  lemma RunStops(o: Syntax, args: seq<string>, i: nat)
    requires i <= |args| && (i == |args| || (KindOf(o, args[i]) == NonOption && !o.allargs && !o.permute)
                             || KindOf(o, args[i]) == Dashes)
    ensures Run(o, args, i, "").ending != AtStuck
    ensures Run(o, args, i, "").mask == if i < |args| && KindOf(o, args[i]) == Dashes then [true] else []
  {
  }

  lemma RunEnters(o: Syntax, args: seq<string>, i: nat)
    requires i < |args| && KindOf(o, args[i]) == Cluster
    ensures Run(o, args, i, "") == Run(o, args, i, Letters(args[i]))
  {
  }

  lemma {:induction false} Foresee(o: Syntax, args: seq<string>, i: nat, last: bool)
    requires i <= |args| && '-' !in o.letters
    ensures Foreseen(o, args, i, last, Run(o, args, i, "").mask, Run(o, args, i, "").ending)
    decreases |args| - i, 1
  {
    if i == |args| || KindOf(o, args[i]) == Dashes {
      RunStops(o, args, i);
    } else if KindOf(o, args[i]) == NonOption {
      if o.allargs || o.permute {
        Foresee(o, args, i + 1, o.allargs);
        RunPasses(o, args, i);
        FinalAfter([o.allargs], Run(o, args, i + 1, "").mask, last);
      } else {
        RunStops(o, args, i);
      }
    } else {
      ForeseeCluster(o, args, i, last);
    }
  }

  lemma ForeseenStuck(o: Syntax, args: seq<string>, i: nat, last: bool)
    requires i < |args| && KindOf(o, args[i]) == Cluster && TrailingDash(o, Letters(args[i]))
    ensures Foreseen(o, args, i, last, [], AtStuck)
  {
  }

  lemma ForeseenThrough(o: Syntax, args: seq<string>, i: nat, last: bool, n: nat, next: nat,
                        mask: seq<bool>, ending: Ending)
    requires i < |args| && KindOf(o, args[i]) == Cluster && !TrailingDash(o, Letters(args[i]))
    requires n == Span(o, Letters(args[i]), NextArg(args, i)) && next == i + n && next <= |args|
    requires Foreseen(o, args, next, true, mask, ending)
    ensures Foreseen(o, args, i, last, Consumed(n) + mask, ending)
  {
    FinalAfter(Consumed(n), mask, last);
  }

  lemma {:induction false} ForeseeCluster(o: Syntax, args: seq<string>, i: nat, last: bool)
    requires i < |args| && '-' !in o.letters && KindOf(o, args[i]) == Cluster
    ensures Foreseen(o, args, i, last, Run(o, args, i, "").mask, Run(o, args, i, "").ending)
    decreases |args| - i, 0
  {
    if TrailingDash(o, Letters(args[i])) {
      RunOverCluster(o, args, i, Letters(args[i]));
      ForeseenStuck(o, args, i, last);
    } else {
      var n, w := RunThroughCluster(o, args, i);
      var next := i + n;
      Foresee(o, args, next, true);
      ForeseenThrough(o, args, i, last, n, next, w.mask, w.ending);
    }
  }

  lemma RunThroughCluster(o: Syntax, args: seq<string>, i: nat) returns (n: nat, w: Walk)
    requires i < |args| && '-' !in o.letters && KindOf(o, args[i]) == Cluster && !TrailingDash(o, Letters(args[i]))
    ensures n == Span(o, Letters(args[i]), NextArg(args, i)) && i + n <= |args| && w == Run(o, args, i + n, "")
    ensures Run(o, args, i, "").mask == Consumed(n) + w.mask && Run(o, args, i, "").ending == w.ending
  {
    n := Span(o, Letters(args[i]), NextArg(args, i));
    w := Run(o, args, i + n, "");
    RunOverCluster(o, args, i, Letters(args[i]));
  }

  lemma RunOverCluster(o: Syntax, args: seq<string>, i: nat, place: string)
    requires i < |args| && '-' !in o.letters && KindOf(o, args[i]) == Cluster && place == Letters(args[i])
    ensures place != "" && var w, n := Run(o, args, i, ""), Span(o, place, NextArg(args, i));
      if TrailingDash(o, place) then w.mask == [] && w.ending == AtStuck
      else w.mask == Consumed(n) + Run(o, args, i + n, "").mask && w.ending == Run(o, args, i + n, "").ending
  {
    RunEnters(o, args, i);
    ClusterRun(o, args, i, place);
  }

  lemma {:induction false} DashIsOption(o: Syntax, args: seq<string>, i: nat)
    requires i <= |args| && '-' in o.letters
    ensures !MeetsTrailingDash(o, args, i)
    decreases |args| - i
  {
    if i < |args| {
      match KindOf(o, args[i]) {
        case NonOption => DashIsOption(o, args, i + 1);
        case Dashes =>
        case Cluster => DashIsOption(o, args, i + Span(o, Letters(args[i]), NextArg(args, i)));
      }
    }
  }

  /** A run gets stuck exactly if it meets a cluster with a trailing dash. */
  lemma StuckIff(o: Syntax, args: seq<string>, i: nat)
    requires i <= |args|
    ensures Run(o, args, i, "").ending == AtStuck <==> MeetsTrailingDash(o, args, i)
  {
    if '-' in o.letters {
      RunMarks(o, args, i);
      DashIsOption(o, args, i);
    } else {
      Foresee(o, args, i, true);
    }
  }

  // ---- what a stuck run leaves ----

  lemma {:induction false} KeepLengths<T>(s: seq<T>, mask: seq<bool>)
    requires |mask| == |s|
    ensures |Keep(s, mask, true)| + |Keep(s, mask, false)| == |s|
    decreases |s|
  {
    if s != [] {
      KeepLengths(s[..|s| - 1], mask[..|s| - 1]);
    }
  }

  lemma SkippedIff(args: seq<string>, b: nat, mask: seq<bool>)
    requires b + |mask| <= |args|
    ensures false in mask <==> Left(args, b, mask) != []
    ensures false in mask <==> Past(mask) != 0
    ensures |Taken(args, b, mask)| + |Left(args, b, mask)| == |mask|
  {
    NothingLeft(args, b, mask);
    KeepLengths(args[b..b + |mask|], mask);
  }

  /** optind is where it should be, behind the consumed elements, exactly if the run does not meet
      a trailing dash or has skipped nothing before. */
  lemma OptindRightIff(o: Syntax, was: seq<string>, b: nat, now: seq<string>, optind: int)
    requires b <= |was| && Leaves(Run(o, was, b, ""), was, b, now, optind)
    ensures optind == b + |Taken(was, b, Run(o, was, b, "").mask)|
            <==> !(MeetsTrailingDash(o, was, b) && SkipsSome(o, was, b))
  {
    StuckIff(o, was, b);
    SkippedIff(was, b, Run(o, was, b, "").mask);
    if MeetsTrailingDash(o, was, b) {
      RunMarks(o, was, b);
      Foresee(o, was, b, true);
    }
  }

  /** Where the run begins to consume again there is an option. */
  ghost predicate OptionAt(o: Syntax, args: seq<string>, i: nat, mask: seq<bool>, k: nat)
    requires i + |mask| <= |args| && k < |mask|
  {
    mask[k] && (k == 0 || !mask[k - 1]) ==> KindOf(o, args[i + k]) != NonOption
  }

  ghost predicate ConsumesOptions(o: Syntax, args: seq<string>, i: nat, mask: seq<bool>) {
    i + |mask| <= |args| && forall k: nat | k < |mask| :: OptionAt(o, args, i, mask, k)
  }

  lemma ConsumesOptionsBefore(o: Syntax, args: seq<string>, i: nat, head: seq<bool>, rest: seq<bool>, next: nat)
    requires next == i + |head| <= |args| && ConsumesOptions(o, args, next, rest)
    requires ConsumesOptions(o, args, i, head)
    ensures ConsumesOptions(o, args, i, head + rest)
  {
    var n, mask := |head|, head + rest;
    forall k: nat | k < |mask|
      ensures OptionAt(o, args, i, mask, k)
    {
      if k < n {
        assert OptionAt(o, args, i, head, k);
      } else {
        assert OptionAt(o, args, next, rest, k - n);
      }
    }
  }

  lemma {:induction false} RunConsumesOptions(o: Syntax, args: seq<string>, i: nat)
    requires i <= |args| && '-' !in o.letters && !o.allargs
    ensures ConsumesOptions(o, args, i, Run(o, args, i, "").mask)
    decreases |args| - i
  {
    if i == |args| || KindOf(o, args[i]) == Dashes {
      RunStops(o, args, i);
    } else if KindOf(o, args[i]) == NonOption {
      if o.permute {
        RunConsumesOptions(o, args, i + 1);
        RunPasses(o, args, i);
        ConsumesOptionsBefore(o, args, i, [false], Run(o, args, i + 1, "").mask, i + 1);
      } else {
        RunStops(o, args, i);
      }
    } else {
      var place := Letters(args[i]);
      var n := Span(o, place, NextArg(args, i));
      RunOverCluster(o, args, i, place);
      if !TrailingDash(o, place) {
        var next := i + n;
        RunConsumesOptions(o, args, next);
        ConsumesOptionsBefore(o, args, i, Consumed(n), Run(o, args, next, "").mask, next);
      }
    }
  }

  ghost predicate SkipsNoOptions(o: Syntax, args: seq<string>, b: nat, mask: seq<bool>) {
    b + |mask| <= |args| && forall k | 0 <= k < |mask| :: mask[k] || KindOf(o, args[b + k]) == NonOption
  }

  /** Exchanging skipped elements with what was consumed behind them changes argv, if the one begin
      differently from the other. */
  lemma PartitionsDiffer(args: seq<string>, b: nat, mask: seq<bool>, p: nat, head: seq<bool>)
    requires p < |mask| && |head| == p && b + |mask| <= |args|
    requires Taken(args, b, mask) == Taken(args, b, head) + args[b + p..b + |mask|]
    requires Left(args, b, mask) == Left(args, b, head) != []
    requires Left(args, b, head)[0] != args[b + p]
    ensures Partition(args, b, head) != Partition(args, b, mask)
  {
    ExchangeDiffers(args, b, b + p, b + |mask|, Taken(args, b, head), Left(args, b, head), args[b + p..b + |mask|]);
  }

  lemma OptionBehindSkipped(o: Syntax, args: seq<string>, b: nat, mask: seq<bool>, p: nat)
    requires ConsumesOptions(o, args, b, mask) && 0 < p == Past(mask) < |mask|
    ensures KindOf(o, args[b + p]) != NonOption
  {
    assert OptionAt(o, args, b, mask, p);
  }

  lemma SomeLeft(o: Syntax, args: seq<string>, b: nat, mask: seq<bool>, p: nat)
    requires SkipsNoOptions(o, args, b, mask) && 0 < p == Past(mask)
    ensures Left(args, b, mask[..p]) != [] && KindOf(o, Left(args, b, mask[..p])[0]) == NonOption
  {
    var head := mask[..p];
    assert head[p - 1] == mask[p - 1] == false;
    NothingLeft(args, b, head);
    LeftAreSkipped(o, args, b, head);
    assert Left(args, b, head)[0] in Left(args, b, head);
  }

  lemma ExchangeDiffers(args: seq<string>, b: nat, p: nat, i: nat, x: seq<string>, s: seq<string>, y: seq<string>)
    requires b <= p <= i <= |args| && s != [] && y != [] && s[0] != y[0]
    ensures Flat(args, b, p, x, s, []) != Flat(args, b, i, x + y, s, [])
  {
    FlatAt(args, b, p, x, s, []);
    FlatAt(args, b, i, x + y, s, []);
    assert (x + y)[|x|] == y[0];
  }

  lemma FlatAt(args: seq<string>, b: nat, i: nat, x: seq<string>, s: seq<string>, y: seq<string>)
    requires b <= i <= |args|
    ensures forall k | 0 <= k < |x| :: b + k < |Flat(args, b, i, x, s, y)| && Flat(args, b, i, x, s, y)[b + k] == x[k]
    ensures s != [] ==> b + |x| < |Flat(args, b, i, x, s, y)| && Flat(args, b, i, x, s, y)[b + |x|] == s[0]
  {
  }

  lemma {:induction false} LeftAreSkipped(o: Syntax, args: seq<string>, b: nat, mask: seq<bool>)
    requires SkipsNoOptions(o, args, b, mask)
    ensures forall e | e in Left(args, b, mask) :: KindOf(o, e) == NonOption
    decreases |mask|
  {
    if mask != [] {
      var n := |mask| - 1;
      assert mask == mask[..n] + [mask[n]];
      NextElement(args, b, mask[..n], mask[n]);
      LeftAreSkipped(o, args, b, mask[..n]);
    }
  }

  /** argv is sorted exactly if the run does not meet a trailing dash, or has skipped nothing before,
      or has skipped the very element before. */
  lemma SortedIff(o: Syntax, was: seq<string>, b: nat, now: seq<string>, optind: int)
    requires b <= |was| && Leaves(Run(o, was, b, ""), was, b, now, optind)
    ensures now == Partition(was, b, Run(o, was, b, "").mask)
            <==> !(MeetsTrailingDash(o, was, b) && SkipsSome(o, was, b) && LastTaken(o, was, b, true))
  {
    StuckIff(o, was, b);
    if MeetsTrailingDash(o, was, b) {
      RunMarks(o, was, b);
      Foresee(o, was, b, true);
      SkippedIff(was, b, Run(o, was, b, "").mask);
      HalfwayIff(o, was, b);
    }
  }

  lemma HalfwayIff(o: Syntax, was: seq<string>, b: nat)
    requires b <= |was| && '-' !in o.letters
    ensures var mask := Run(o, was, b, "").mask;
      Partition(was, b, mask[..Past(mask)]) == Partition(was, b, mask) <==> Past(mask) == 0 || Past(mask) == |mask|
  {
    var mask := Run(o, was, b, "").mask;
    if Past(mask) == 0 {
      AllTaken(was, b, mask);
      FlatWhole(was, b, b + |mask|);
      SkippedIff(was, b, mask);
      PartitionOfNothing(was, b, mask[..0]);
    } else if Past(mask) == |mask| {
      assert mask[..|mask|] == mask;
    } else {
      SkippedIff(was, b, mask);
      SkippingSyntax(o, was, b);
      RunConsumesOptions(o, was, b);
      HalfwayDiffers(o, was, b, mask, Past(mask));
    }
  }

  lemma HalfwayDiffers(o: Syntax, was: seq<string>, b: nat, mask: seq<bool>, p: nat)
    requires 0 < p == Past(mask) < |mask|
    requires ConsumesOptions(o, was, b, mask) && SkipsNoOptions(o, was, b, mask)
    ensures Partition(was, b, mask[..p]) != Partition(was, b, mask)
  {
    SomeLeft(o, was, b, mask, p);
    OptionBehindSkipped(o, was, b, mask, p);
    PastSplit(was, b, mask);
    PartitionsDiffer(was, b, mask, p, mask[..p]);
  }

  lemma SkippingSyntax(o: Syntax, args: seq<string>, i: nat)
    requires i <= |args| && false in Run(o, args, i, "").mask
    ensures !o.allargs
    ensures SkipsNoOptions(o, args, i, Run(o, args, i, "").mask)
  {
    RunMarks(o, args, i);
    var w := Run(o, args, i, "");
    var j :| 0 <= j < |w.mask| && w.mask[j] == false;
    assert MayBeSkipped(o, args, i + j);
  }

  // ---- two examples, with "a" the only option ----

  lemma OnlyOption(o: Syntax)
    requires o == SyntaxOf("a", false, true)
    ensures o == Syntax("a", true, false) && Find(o.letters, 'a') == 0 && Find(o.letters, '-') == -1
  {
  }

  lemma RunAtWord(o: Syntax, args: seq<string>, i: nat, w: Walk)
    requires o == Syntax("a", true, false) && i < |args| && args[i] == "x" && Run(o, args, i + 1, "") == w
    ensures Run(o, args, i, "") == w.Before([false], [])
  {
  }

  lemma RunAtLetter(o: Syntax, args: seq<string>, i: nat, place: string, n: nat, w: Walk)
    requires o == Syntax("a", true, false) && i < |args| && place != "" && place[0] == 'a'
    requires n == (if |place| == 1 then 1 else 0) && Run(o, args, i + n, place[1..]) == w
    ensures Run(o, args, i, place) == w.Before(Consumed(n), [Letter('a', None)])
  {
    OnlyOption(SyntaxOf("a", false, true));
  }

  lemma RunAtOption(o: Syntax, args: seq<string>, i: nat, w: Walk)
    requires o == Syntax("a", true, false) && i < |args| && args[i] == "-a" && Run(o, args, i + 1, "") == w
    ensures Run(o, args, i, "") == w.Before([true], [Letter('a', None)])
  {
    RunEnters(o, args, i);
    assert Letters("-a") == "a" && "a"[1..] == "";
    RunAtLetter(o, args, i, "a", 1, w);
    assert Consumed(1) == [true];
  }

  lemma RunAtDash(o: Syntax, args: seq<string>, i: nat)
    requires o == Syntax("a", true, false) && i < |args| && args[i] == "-a-"
    ensures Run(o, args, i, "") == Walk([], [Letter('a', None)], AtStuck)
  {
    RunEnters(o, args, i);
    assert Letters("-a-") == "a-" && "a-"[1..] == "-";
    OnlyOption(SyntaxOf("a", false, true));
    assert Run(o, args, i, "-") == Walk([], [], AtStuck);
    RunAtLetter(o, args, i, "a-", 0, Walk([], [], AtStuck));
    assert Consumed(0) == [];
  }

  lemma OneSkipped(args: seq<string>)
    requires |args| > 1
    ensures Taken(args, 1, [false]) == [] && Left(args, 1, [false]) == [args[1]]
  {
    NextElement(args, 1, [], false);
    assert [] + [false] == [false];
  }

  lemma OneSkippedOneTaken(args: seq<string>)
    requires |args| > 2
    ensures Taken(args, 1, [false, true]) == [args[2]] && Left(args, 1, [false, true]) == [args[1]]
    ensures Past([false, true]) == 1 && [false, true][..1] == [false]
  {
    OneSkipped(args);
    NextElement(args, 1, [false], true);
    assert [false] + [true] == [false, true];
    PastNext([false], true);
  }

  /** The first run: argv stays sorted, but optind is one too far. */
  lemma StuckBehindSkipped(o: Syntax, args: seq<string>)
    requires o == SyntaxOf("a", false, true)
    requires |args| == 3 && args[1] == "x" && args[2] == "-a-"
    ensures Run(o, args, 1, "") == Walk([false], [Letter('a', None)], AtStuck)
    ensures Leaves(Walk([false], [Letter('a', None)], AtStuck), args, 1, args, 2)
    ensures Partition(args, 1, [false]) == args && Taken(args, 1, [false]) == []
  {
    OnlyOption(o);
    RunAtDash(o, args, 2);
    RunAtWord(o, args, 1, Walk([], [Letter('a', None)], AtStuck));
    LeftSorted(args);
  }

  lemma LeftSorted(args: seq<string>)
    requires |args| == 3
    ensures Leaves(Walk([false], [Letter('a', None)], AtStuck), args, 1, args, 2)
    ensures Partition(args, 1, [false]) == args && Taken(args, 1, [false]) == []
  {
    OneSkipped(args);
    assert [false][..1] == [false];
  }

  /** The second: argv is not sorted either. */
  lemma StuckBehindOption(o: Syntax, args: seq<string>)
    requires o == SyntaxOf("a", false, true)
    requires |args| == 4 && args[1] == "x" && args[2] == "-a" && args[3] == "-a-"
    ensures Run(o, args, 1, "") == Walk([false, true], [Letter('a', None), Letter('a', None)], AtStuck)
    ensures Leaves(Walk([false, true], [Letter('a', None), Letter('a', None)], AtStuck), args, 1, args, 3)
    ensures Partition(args, 1, [false, true]) == [args[0], args[2], args[1], args[3]]
    ensures |Taken(args, 1, [false, true])| == 1
  {
    OnlyOption(o);
    RunAtDash(o, args, 3);
    RunAtOption(o, args, 2, Walk([], [Letter('a', None)], AtStuck));
    RunAtWord(o, args, 1, Walk([true], [Letter('a', None), Letter('a', None)], AtStuck));
    LeftUnsorted(args);
  }

  lemma LeftUnsorted(args: seq<string>)
    requires |args| == 4
    ensures Leaves(Walk([false, true], [Letter('a', None), Letter('a', None)], AtStuck), args, 1, args, 3)
    ensures Partition(args, 1, [false, true]) == [args[0], args[2], args[1], args[3]]
    ensures |Taken(args, 1, [false, true])| == 1
  {
    OneSkipped(args);
    OneSkippedOneTaken(args);
  }
}
