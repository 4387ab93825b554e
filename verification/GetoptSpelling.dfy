/** What a run of getopt_internal reports (compat/getopt.c), told without reading letter by letter: argv
    is taken as a list of words written out, and the run reports those words. */
module GetoptSpelling {
  import opened Getopt
  import opened Sequences
  import opened Shut
  import opened Wrappers

  /** How the last letter of an option element goes on: without an argument, with one in the same
      element, with one in the next element, without an optional one, or without one that it needs. */
  datatype Last = Alone | Attached(arg: string) | Separate(arg: string) | Omitted | Lacking

  /** An element with option letters, and its argument; or an element that is no option. */
  datatype Word = Options(plain: string, c: char, last: Last) | Other(text: string)

  /** How it ends behind the words: with argv, with "--", with an element that is no option, or in an
      element with a '-' behind these letters. */
  datatype Close = WithArgv | WithDashes | WithOther | WithDash(plain: string)

  // ---- what is written ----

  function Dashed(letters: string): string {
    if letters == "-" then "-" else "-" + letters
  }

  function Spell(word: Word): (r: seq<string>)
    ensures 1 <= |r| <= 2
  {
    match word
    case Other(text) => [text]
    case Options(plain, c, Attached(arg)) => ["-" + (plain + ([c] + arg))]
    case Options(plain, c, Separate(arg)) => [Dashed(plain + [c]), arg]
    case Options(plain, c, _) => [Dashed(plain + [c])]
  }

  /** The first c of the option letters is at k, and has n colons behind it (of which no more than
      two matter). */
  ghost predicate DeclaredAt(letters: string, c: char, k: nat, n: nat) {
    && k < |letters| && letters[k] == c && c !in letters[..k] && c != ':' && n <= 2
    && (n > 0 <==> Colon(letters, k + 1)) && (n > 1 <==> Colon(letters, k + 1) && Colon(letters, k + 2))
  }

  ghost predicate Declared(letters: string, c: char, n: nat) {
    exists k :: DeclaredAt(letters, c, k, n)
  }

  /** c is no option, or not here: '-' can only be the last letter. */
  ghost predicate Bad(o: Syntax, c: char, more: bool) {
    c == ':' || c !in o.letters || (c == '-' && more)
  }

  ghost predicate Simple(o: Syntax, c: char, more: bool) {
    Bad(o, c, more) || Declared(o.letters, c, 0)
  }

  ghost predicate IsOther(o: Syntax, text: string) {
    text == "" || text[0] != '-' || (text == "-" && '-' !in o.letters)
  }

  ghost predicate Dashing(next: Option<string>) {
    next.Some? && next.value != "" && next.value[0] == '-'
  }

  /** The last letter can go on like this before the given element of argv. */
  ghost predicate LastFits(o: Syntax, c: char, last: Last, next: Option<string>) {
    match last
    case Alone => Simple(o, c, false) && (c == '-' ==> '-' in o.letters)
    case Attached(arg) => arg != "" && c != '-' && (Declared(o.letters, c, 1) || Declared(o.letters, c, 2))
    case Separate(arg) =>
      && next == Some(arg)
      && (Declared(o.letters, c, 1) || (Declared(o.letters, c, 2) && !o.permute && !Dashing(next)))
    case Omitted => Declared(o.letters, c, 2) && (o.permute || next == None || Dashing(next))
    case Lacking => Declared(o.letters, c, 1) && next == None
  }

  ghost predicate AllSimple(o: Syntax, plain: string) {
    forall k | 0 <= k < |plain| :: Simple(o, plain[k], true)
  }

  ghost predicate Fits(o: Syntax, word: Word, next: Option<string>) {
    match word
    case Other(text) => IsOther(o, text) && (o.allargs || o.permute)
    case Options(plain, c, last) => AllSimple(o, plain) && LastFits(o, c, last, next)
  }

  ghost predicate Closes(o: Syntax, args: seq<string>, i: nat, close: Close) {
    match close
    case WithArgv => i == |args|
    case WithDashes => i < |args| && args[i] == "--"
    case WithOther => i < |args| && IsOther(o, args[i]) && !o.allargs && !o.permute
    case WithDash(plain) =>
      i < |args| && plain != "" && args[i] == "-" + (plain + "-") && AllSimple(o, plain) && '-' !in o.letters
  }

  /** At i, argv has this word written out. */
  ghost predicate WordAt(o: Syntax, args: seq<string>, i: nat, word: Word) {
    forall k: nat {:trigger Show(k)} :: Show(k) ==>
      && i + |Spell(word)| <= |args| && Spell(word) == args[i..i + |Spell(word)|]
      && Fits(o, word, NextArg(args, i))
  }

  lemma WordEnds(o: Syntax, args: seq<string>, i: nat, word: Word)
    requires WordAt(o, args, i, word)
    ensures i + |Spell(word)| <= |args|
  {
    assert Show(0);
  }

  /** From i on, argv is these words written out, and what comes behind them ends the run. */
  ghost predicate Spells(o: Syntax, args: seq<string>, i: nat, words: seq<Word>, close: Close)
    decreases words
  {
    if words == [] then Closes(o, args, i, close)
    else WordAt(o, args, i, words[0]) && Spells(o, args, i + |Spell(words[0])|, words[1..], close)
  }

  // ---- what is reported ----

  ghost function Letterwise(o: Syntax, plain: string): seq<Outcome> {
    if plain == "" then []
    else [if Bad(o, plain[0], true) then BadLetter(plain[0]) else Letter(plain[0], None)] + Letterwise(o, plain[1..])
  }

  ghost function LastReport(o: Syntax, c: char, last: Last): Outcome {
    match last
    case Alone => if Bad(o, c, false) then BadLetter(c) else Letter(c, None)
    case Attached(arg) => Letter(c, Some(arg))
    case Separate(arg) => Letter(c, Some(arg))
    case Omitted => Letter(c, None)
    case Lacking => MissingArgument(c, if o.letters != "" && o.letters[0] == ':' then ':' else '?')
  }

  ghost function Reports(o: Syntax, words: seq<Word>): seq<Outcome> {
    if words == [] then [] else ReportsOf(o, words[0]) + Reports(o, words[1..])
  }

  ghost function ReportsOf(o: Syntax, word: Word): seq<Outcome> {
    match word
    case Other(text) => if o.allargs then [InOrder(text)] else []
    case Options(plain, c, last) => Letterwise(o, plain) + [LastReport(o, c, last)]
  }

  ghost function CloseReports(o: Syntax, close: Close): seq<Outcome> {
    if close.WithDash? then Letterwise(o, close.plain) else []
  }

  /** Everything but other elements that are skipped is consumed. */
  function Marks(o: Syntax, words: seq<Word>): seq<bool> {
    if words == [] then [] else MarksOf(o, words[0]) + Marks(o, words[1..])
  }

  function MarksOf(o: Syntax, word: Word): seq<bool> {
    if word.Other? then [o.allargs] else Consumed(|Spell(word)|)
  }

  function EndingOf(close: Close): Ending {
    match close
    case WithArgv => EndOfArgs
    case WithDashes => AtDoubleDash
    case WithOther => AtNonOption
    case WithDash(_) => AtStuck
  }

  ghost function Told(o: Syntax, words: seq<Word>, close: Close): Walk {
    Walk(Marks(o, words) + if close.WithDashes? then [true] else [],
         Reports(o, words) + CloseReports(o, close), EndingOf(close))
  }

  // ---- reading letters ----

  lemma DeclaredIs(letters: string, c: char, n: nat)
    requires Declared(letters, c, n)
    ensures var k := Find(letters, c); k >= 0 && DeclaredAt(letters, c, k, n)
  {
    var j: nat :| DeclaredAt(letters, c, j, n);
    FindIsFirst(letters, c, j);
    var k := Find(letters, c);
    forall m | 0 <= m < j
      ensures letters[m] != c
    {
      assert letters[m] == letters[..j][m];
    }
  }

  lemma {:induction false} FindBefore(s: string, c: char)
    requires c in s
    ensures c !in s[..Find(s, c)]
  {
    if s[0] != c {
      FindBefore(s[1..], c);
      assert s[..Find(s, c)] == [s[0]] + s[1..][..Find(s[1..], c)];
    }
  }

  lemma SomehowDeclared(letters: string, c: char) returns (n: nat)
    requires c in letters && c != ':'
    ensures n <= 2 && Declared(letters, c, n)
    ensures n > 0 <==> Colon(letters, Find(letters, c) + 1)
    ensures n > 1 <==> Colon(letters, Find(letters, c) + 1) && Colon(letters, Find(letters, c) + 2)
  {
    var k := Find(letters, c);
    n := if !Colon(letters, k + 1) then 0 else if !Colon(letters, k + 2) then 1 else 2;
    FindBefore(letters, c);
    assert DeclaredAt(letters, c, k, n);
  }

  /** A letter that is not the last one is read alone. */
  lemma ReadSimple(o: Syntax, c: char, rest: string, next: Option<string>)
    requires Simple(o, c, rest != "") && (c == '-' && rest == "" ==> '-' in o.letters)
    ensures ReadLetter(o, [c] + rest, next)
         == Read(if Bad(o, c, rest != "") then BadLetter(c) else Letter(c, None), if rest == "" then 1 else 0, rest)
  {
    assert ([c] + rest)[1..] == rest;
    if !Bad(o, c, rest != "") {
      DeclaredIs(o.letters, c, 0);
    }
  }

  lemma ReadAttached(o: Syntax, c: char, arg: string, n: nat, next: Option<string>)
    requires arg != "" && c != '-' && n > 0 && Declared(o.letters, c, n)
    ensures ReadLetter(o, [c] + arg, next) == Read(Letter(c, Some(arg)), 1, "")
  {
    assert ([c] + arg)[1..] == arg;
    DeclaredIs(o.letters, c, n);
  }

  lemma ReadLast(o: Syntax, c: char, last: Last, next: Option<string>)
    requires !last.Attached? && LastFits(o, c, last, next)
    ensures ReadLetter(o, [c], next) == Read(LastReport(o, c, last), if last.Separate? then 2 else 1, "")
  {
    if last.Alone? {
      ReadSimple(o, c, "", next);
      assert [c] + "" == [c];
    } else if Declared(o.letters, c, 1) {
      DeclaredIs(o.letters, c, 1);
    } else {
      DeclaredIs(o.letters, c, 2);
    }
  }

  lemma NothingBefore(w: Walk)
    ensures w.Before([], []) == w
  {
  }

  lemma {:induction false} RunPlain(o: Syntax, args: seq<string>, i: nat, plain: string, tail: string)
    requires AllSimple(o, plain) && tail != "" && i < |args|
    ensures Run(o, args, i, plain + tail) == Run(o, args, i, tail).Before([], Letterwise(o, plain))
    decreases |plain|
  {
    if plain == "" {
      assert plain + tail == tail;
      NothingBefore(Run(o, args, i, tail));
    } else {
      var c, more := plain[0], plain[1..];
      var place := plain + tail;
      assert place == [c] + (more + tail);
      assert Simple(o, c, true);
      ReadSimple(o, c, more + tail, NextArg(args, i));
      RunAfterLetter(o, args, i, place);
      RunPlain(o, args, i, more, tail);
      BeforeBefore(Run(o, args, i, tail), Consumed(0), [Letterwise(o, plain)[0]], [], Letterwise(o, more));
    }
  }

  // ---- reading words ----

  lemma RunOther(o: Syntax, args: seq<string>, i: nat, w: Walk)
    requires i < |args| && IsOther(o, args[i]) && (o.allargs || o.permute) && w == Run(o, args, i + 1, "")
    ensures Run(o, args, i, "") == w.Before([o.allargs], if o.allargs then [InOrder(args[i])] else [])
  {
  }

  /** An element with letters is taken for one. */
  lemma RunElement(o: Syntax, args: seq<string>, i: nat, letters: string)
    requires i < |args| && letters != "" && (letters == "-" ==> args[i] == "-" && '-' in o.letters)
    requires letters != "-" ==> args[i] == "-" + letters
    ensures Run(o, args, i, "") == Run(o, args, i, letters)
  {
    if letters != "-" {
      assert args[i][1..] == letters;
      assert args[i] == "--" ==> letters == "-";
    }
  }

  lemma RunLast(o: Syntax, args: seq<string>, i: nat, c: char, last: Last, n: nat)
    requires i < |args| && LastFits(o, c, last, NextArg(args, i)) && n == (if last.Separate? then 2 else 1)
    ensures i + n <= |args|
    ensures Run(o, args, i, if last.Attached? then [c] + last.arg else [c])
         == Run(o, args, i + n, "").Before(Consumed(n), [LastReport(o, c, last)])
  {
    if last.Attached? {
      ReadAttached(o, c, last.arg, if Declared(o.letters, c, 1) then 1 else 2, NextArg(args, i));
      RunAfterLetter(o, args, i, [c] + last.arg);
    } else {
      ReadLast(o, c, last, NextArg(args, i));
      RunAfterLetter(o, args, i, [c]);
    }
  }

  lemma RunOptions(o: Syntax, args: seq<string>, i: nat, word: Word, n: nat)
    requires word.Options? && n == |Spell(word)| && i + n <= |args| && Spell(word) == args[i..i + n]
    requires Fits(o, word, NextArg(args, i))
    ensures Run(o, args, i, "") == Run(o, args, i + n, "").Before(Consumed(n),
              Letterwise(o, word.plain) + [LastReport(o, word.c, word.last)])
  {
    var last := word.last;
    var tail := if last.Attached? then [word.c] + last.arg else [word.c];
    assert args[i] == Spell(word)[0];
    ElementOf(o, args, i, word.plain, tail, word.c, last);
    RunPlain(o, args, i, word.plain, tail);
    RunLast(o, args, i, word.c, last, n);
    BeforeBefore(Run(o, args, i + n, ""), [], Letterwise(o, word.plain), Consumed(n), [LastReport(o, word.c, last)]);
    assert [] + Consumed(n) == Consumed(n);
  }

  lemma ElementOf(o: Syntax, args: seq<string>, i: nat, plain: string, tail: string, c: char, last: Last)
    requires i < |args| && LastFits(o, c, last, NextArg(args, i))
    requires tail == if last.Attached? then [c] + last.arg else [c]
    requires args[i] == if last.Attached? then "-" + (plain + tail) else Dashed(plain + [c])
    ensures Run(o, args, i, "") == Run(o, args, i, plain + tail)
  {
    var letters := plain + tail;
    assert letters[|plain|] == c;
    if letters == "-" {
      assert plain == "" && c == '-';
      assert |tail| == 1;
      if !last.Alone? {
        var n := if Declared(o.letters, c, 1) then 1 else 2;
        DeclaredIs(o.letters, c, n);
      }
    }
    RunElement(o, args, i, letters);
  }

  lemma RunCloses(o: Syntax, args: seq<string>, i: nat, close: Close)
    requires i <= |args| && Closes(o, args, i, close)
    ensures Run(o, args, i, "") == Told(o, [], close)
  {
    if close.WithDash? {
      var plain := close.plain;
      RunElement(o, args, i, plain + "-");
      RunPlain(o, args, i, plain, "-");
      assert Run(o, args, i, "-") == Walk([], [], AtStuck) by {
        assert Find(o.letters, '-') == -1 && "-"[1..] == "";
      }
    }
  }

  /** A run over words written out reports exactly these words: every letter that is an option, with
      its argument if it has one, every letter that is not, and every argument that is missing. */
  lemma {:induction false} SpelledIsRead(o: Syntax, args: seq<string>, i: nat, words: seq<Word>, close: Close)
    requires i <= |args| && Spells(o, args, i, words, close)
    ensures Run(o, args, i, "") == Told(o, words, close)
    decreases words
  {
    if words == [] {
      RunCloses(o, args, i, close);
    } else {
      var word, more, n := words[0], words[1..], |Spell(words[0])|;
      WordEnds(o, args, i, word);
      SpelledIsRead(o, args, i + n, more, close);
      WordIsRead(o, args, i, word, n);
      ToldBefore(o, word, more, words, close, Run(o, args, i + n, ""), Run(o, args, i, ""));
    }
  }

  lemma WordIsRead(o: Syntax, args: seq<string>, i: nat, word: Word, n: nat)
    requires n == |Spell(word)| && WordAt(o, args, i, word)
    ensures i + n <= |args|
    ensures Run(o, args, i, "") == Run(o, args, i + n, "").Before(MarksOf(o, word), ReportsOf(o, word))
  {
    assert Show(0);
    if word.Other? {
      assert args[i] == Spell(word)[0];
      RunOther(o, args, i, Run(o, args, i + 1, ""));
    } else {
      RunOptions(o, args, i, word, n);
    }
  }

  lemma ToldBefore(o: Syntax, word: Word, more: seq<Word>, words: seq<Word>, close: Close, w: Walk, v: Walk)
    requires words != [] && words[0] == word && words[1..] == more
    requires w == Told(o, more, close) && v == w.Before(MarksOf(o, word), ReportsOf(o, word))
    ensures v == Told(o, words, close)
  {
    Assoc(MarksOf(o, word), Marks(o, more), if close.WithDashes? then [true] else []);
    Assoc(ReportsOf(o, word), Reports(o, more), CloseReports(o, close));
  }

  // ---- every argv is words written out ----

  /** How the letters of an element divide: some that are read alone, and then either one with what
      it takes along, or a '-' that is no option. */
  lemma {:induction false} DivideLetters(o: Syntax, letters: string, next: Option<string>)
      returns (plain: string, c: char, last: Last, dash: bool)
    requires letters != ""
    ensures Divided(o, letters, next, plain, c, last, dash)
    decreases |letters|
  {
    c := letters[0];
    var rest := letters[1..];
    assert letters == [c] + rest;
    if rest != "" && Simple(o, c, true) {
      plain, c, last, dash := DivideLetters(o, rest, next);
      OneMoreLetter(o, letters[0], rest, next, plain, c, last, dash);
      plain := [letters[0]] + plain;
    } else {
      plain := "";
      last, dash := DivideLast(o, c, rest, next);
    }
  }

  ghost predicate Divided(o: Syntax, letters: string, next: Option<string>,
                          plain: string, c: char, last: Last, dash: bool)
  {
    && AllSimple(o, plain)
    && if dash then letters == plain + "-" && '-' !in o.letters
       else LastFits(o, c, last, next) && letters == plain + if last.Attached? then [c] + last.arg else [c]
  }

  lemma OneMoreLetter(o: Syntax, d: char, rest: string, next: Option<string>,
                      plain: string, c: char, last: Last, dash: bool)
    requires Simple(o, d, true) && Divided(o, rest, next, plain, c, last, dash)
    ensures Divided(o, [d] + rest, next, [d] + plain, c, last, dash)
  {
    var tail := if dash then "-" else if last.Attached? then [c] + last.arg else [c];
    Assoc([d], plain, tail);
  }

  lemma DivideLast(o: Syntax, c: char, rest: string, next: Option<string>) returns (last: Last, dash: bool)
    requires rest != "" ==> !Simple(o, c, true)
    ensures Divided(o, [c] + rest, next, "", c, last, dash)
  {
    last, dash := Alone, false;
    assert "" + ([c] + rest) == [c] + rest && "" + [c] == [c];
    if Bad(o, c, false) {
      dash := c == '-';
    } else {
      var n := SomehowDeclared(o.letters, c);
      last := if n == 0 then Alone else if rest != "" then Attached(rest) else LastOf(o, n, next);
    }
  }

  function LastOf(o: Syntax, n: nat, next: Option<string>): Last {
    if n == 1 then if next == None then Lacking else Separate(next.value)
    else if next == None || o.permute || (next.value != "" && next.value[0] == '-') then Omitted
    else Separate(next.value)
  }

  lemma SpellsOne(o: Syntax, args: seq<string>, i: nat, word: Word, n: nat, words: seq<Word>, close: Close)
    requires n == |Spell(word)| && WordAt(o, args, i, word) && Spells(o, args, i + n, words, close)
    ensures Spells(o, args, i, [word] + words, close)
  {
    assert ([word] + words)[1..] == words;
  }

  /** Any argv is words written out. */
  lemma {:induction false} AllIsSpelled(o: Syntax, args: seq<string>, i: nat) returns (words: seq<Word>, close: Close)
    requires i <= |args|
    ensures Spells(o, args, i, words, close)
    decreases |args| - i
  {
    words, close := [], WithArgv;
    if i == |args| {
      return;
    }
    if IsOther(o, args[i]) && !o.allargs && !o.permute {
      close := WithOther;
    } else if args[i] == "--" {
      close := WithDashes;
    } else {
      var word, stuck := FirstWord(o, args, i);
      if stuck != "" {
        close := WithDash(stuck);
      } else {
        WordEnds(o, args, i, word);
        var more;
        more, close := AllIsSpelled(o, args, i + |Spell(word)|);
        SpellsOne(o, args, i, word, |Spell(word)|, more, close);
        words := [word] + more;
      }
    }
  }

  lemma FirstWord(o: Syntax, args: seq<string>, i: nat) returns (word: Word, stuck: string)
    requires i < |args| && args[i] != "--" && (IsOther(o, args[i]) ==> o.allargs || o.permute)
    ensures stuck != "" ==> Closes(o, args, i, WithDash(stuck))
    ensures stuck == "" ==> WordAt(o, args, i, word)
  {
    stuck := "";
    if IsOther(o, args[i]) {
      word := Other(args[i]);
    } else {
      var letters := if args[i] == "-" then "-" else args[i][1..];
      assert args[i] == Dashed(letters);
      var plain, c, last, dash := DivideLetters(o, letters, NextArg(args, i));
      if dash {
        stuck := plain;
      }
      word := Options(plain, c, last);
    }
  }

  // ---- the errors ----

  /** c stands in this element, is no option there, and is not part of an argument. */
  ghost predicate HasBad(o: Syntax, word: Word, c: char) {
    && word.Options?
    && ((c in word.plain && Bad(o, c, true)) || (word.c == c && word.last == Alone && Bad(o, c, false)))
  }

  /** This element ends in c, which needs an argument. */
  ghost predicate Lacks(word: Word, c: char) {
    word.Options? && word.c == c && word.last == Lacking
  }

  lemma {:induction false} LetterwiseBad(o: Syntax, plain: string, c: char)
    ensures BadLetter(c) in Letterwise(o, plain) <==> c in plain && Bad(o, c, true)
    ensures forall r | r in Letterwise(o, plain) :: r.Letter? || r.BadLetter?
  {
    if plain != "" {
      LetterwiseBad(o, plain[1..], c);
      assert plain == [plain[0]] + plain[1..];
    }
  }

  lemma ErrorsOfWord(o: Syntax, word: Word, c: char, reported: char)
    requires word.Options?
    ensures var r := Letterwise(o, word.plain) + [LastReport(o, word.c, word.last)];
      && (BadLetter(c) in r <==> HasBad(o, word, c))
      && (MissingArgument(c, reported) in r
          <==> Lacks(word, c) && reported == if o.letters != "" && o.letters[0] == ':' then ':' else '?')
  {
    LetterwiseBad(o, word.plain, c);
  }

  ghost predicate SomeBad(o: Syntax, words: seq<Word>, c: char) {
    exists j :: 0 <= j < |words| && HasBad(o, words[j], c)
  }

  lemma SomeBadOf(o: Syntax, words: seq<Word>, c: char)
    requires words != []
    ensures SomeBad(o, words, c) <==> HasBad(o, words[0], c) || SomeBad(o, words[1..], c)
  {
    if SomeBad(o, words[1..], c) {
      var j :| 0 <= j < |words[1..]| && HasBad(o, words[1..][j], c);
      assert HasBad(o, words[j + 1], c);
    }
    if SomeBad(o, words, c) && !HasBad(o, words[0], c) {
      var j :| 0 <= j < |words| && HasBad(o, words[j], c);
      assert words[1..][j - 1] == words[j];
    }
  }

  lemma LackingEnds(o: Syntax, args: seq<string>, i: nat, word: Word)
    requires WordAt(o, args, i, word) && word.Options? && word.last == Lacking
    ensures i + |Spell(word)| == |args|
  {
    assert Show(0);
  }

  lemma NothingBehind(o: Syntax, args: seq<string>, words: seq<Word>, close: Close)
    requires Spells(o, args, |args|, words, close)
    ensures words == [] && close == WithArgv
  {
    if words != [] {
      WordEnds(o, args, |args|, words[0]);
    }
  }

  /** A letter is reported as bad exactly if it stands where it is no option, and an argument as
      missing exactly if the last element of argv ends in a letter that needs one. */
  lemma {:induction false} ErrorsIff(o: Syntax, args: seq<string>, i: nat, words: seq<Word>, close: Close,
                                     c: char, reported: char)
    requires i <= |args| && Spells(o, args, i, words, close)
    ensures BadLetter(c) in Reports(o, words) <==> SomeBad(o, words, c)
    ensures MissingArgument(c, reported) in Reports(o, words)
            <==> words != [] && Lacks(words[|words| - 1], c)
                 && reported == if o.letters != "" && o.letters[0] == ':' then ':' else '?'
    ensures words != [] && Lacks(words[|words| - 1], c) ==> close == WithArgv
    decreases words
  {
    if words != [] {
      var word, more, n := words[0], words[1..], |Spell(words[0])|;
      WordEnds(o, args, i, word);
      ErrorsIff(o, args, i + n, more, close, c, reported);
      SomeBadOf(o, words, c);
      if word.Options? {
        ErrorsOfWord(o, word, c, reported);
      }
      if Lacks(word, c) {
        LackingEnds(o, args, i, word);
        NothingBehind(o, args, more, close);
      }
      assert more != [] ==> words[|words| - 1] == more[|more| - 1];
    }
  }

  // ---- the sign in front of the option letters ----

  ghost predicate Unsigned(options: string) {
    options == "" || options[0] !in "+-"
  }

  /** What an element that does not begin with '-' comes to depends on that sign, or on
      POSIXLY_CORRECT: it ends the run, is reported in its place, or is skipped if permuting. */
  lemma SignDecides(letters: string, options: string, permute: bool, args: seq<string>, i: nat)
    requires i < |args| && (args[i] == "" || args[i][0] != '-')
    ensures Run(SyntaxOf("+" + letters, false, permute), args, i, "") == Walk([], [], AtNonOption)
    ensures Run(SyntaxOf(options, true, permute), args, i, "") == Walk([], [], AtNonOption)
    ensures var w := Run(SyntaxOf("-" + letters, false, permute), args, i, "");
            |w.mask| > 0 && w.mask[0] && |w.outs| > 0 && w.outs[0] == InOrder(args[i])
    ensures Unsigned(options) ==>
              var w := Run(SyntaxOf(options, false, permute), args, i, "");
              if permute then |w.mask| > 0 && !w.mask[0] else w == Walk([], [], AtNonOption)
    ensures forall posix :: SyntaxOf("+" + letters, posix, permute).letters == letters
                         && SyntaxOf("-" + letters, posix, permute).letters == letters
    ensures Unsigned(options) ==> forall posix :: SyntaxOf(options, posix, permute).letters == options
  {
    var plus, minus := SyntaxOf("+" + letters, false, permute), SyntaxOf("-" + letters, false, permute);
    assert plus == Syntax(letters, false, false);
    assert minus == Syntax(letters, permute, true);
    RunOther(minus, args, i, Run(minus, args, i + 1, ""));
    var o := SyntaxOf(options, false, permute);
    if Unsigned(options) && permute {
      RunOther(o, args, i, Run(o, args, i + 1, ""));
    }
  }
}
