/** The line wrapper of text.c. text_wrap goes over its input once, but when a line overflows
    it chops characters off its output again and moves its source pointer back. Lines is what
    that comes to: the greedy division of the text into lines. */
module TextWrap {
  import opened Buf
  import opened CType
  import opened Sequences
  import opened Shut
  import opened TextBreaks

  /** A piece of the output: a stretch of the input on one line, a newline of the input, or the
      text that is inserted to break an overlong line. */
  datatype Piece = Line(lo: nat, hi: nat) | Newline | Inserted

  function PastSpace(s: string, i: nat): (r: nat)
    requires i <= |s|
    ensures i <= r <= |s| && (r < |s| ==> !IsSpace(s[r]))
    ensures forall k | i <= k < r :: IsSpace(s[k])
    decreases |s| - i
  {
    if i < |s| && IsSpace(s[i]) then PastSpace(s, i + 1) else i
  }

  /** The last white space, or the last character that is no letter or digit, of s[lo..hi]. */
  function LastBreak(s: string, lo: nat, hi: nat, space: bool): (t: int)
    requires lo <= hi <= |s|
    ensures t == -1 || lo <= t < hi
    ensures t != -1 ==> BreaksAt(s, t, space)
    ensures forall k | lo <= k < hi && t < k :: !BreaksAt(s, k, space)
  {
    if lo == hi then -1 else if BreaksAt(s, hi - 1, space) then hi - 1 else LastBreak(s, lo, hi - 1, space)
  }

  predicate BreaksAt(s: string, k: nat, space: bool)
    requires k < |s|
  {
    if space then IsSpace(s[k]) else !IsAlnum(s[k])
  }

  /** The first non-space before i, or 0. */
  function Before(s: string, i: nat): (r: nat)
    requires i < |s|
    ensures r <= i && (r > 0 ==> !IsSpace(s[r]))
    ensures forall k | r < k <= i :: IsSpace(s[k])
  {
    if i > 0 && IsSpace(s[i]) then Before(s, i - 1) else i
  }

  /** Where the white space that ends with t starts, except that a space at the very beginning
      of the text is not counted in unless it is t itself. */
  function RunStart(s: string, t: nat): (r: nat)
    requires t < |s| && IsSpace(s[t])
    ensures r <= t && forall k | r <= k <= t :: IsSpace(s[k])
  {
    if t == 0 then 0 else Before(s, t - 1) + 1
  }

  /** A line never starts with a space that follows another one. */
  predicate LineStart(s: string, a: nat) {
    a <= |s| && (0 < a < |s| && IsSpace(s[a]) ==> !IsSpace(s[a - 1]))
  }

  /** Where the line that starts at a has to end: at a newline, when it is full, or with the text. */
  function LineEnd(s: string, a: nat, room: nat): (e: nat)
    requires a <= |s|
    ensures a <= e <= |s| && e - a <= room
    ensures e < |s| && s[e] != '\n' ==> e == a + room
    ensures forall k | a <= k < e :: s[k] != '\n'
    decreases room
  {
    if a == |s| || s[a] == '\n' || room == 0 then a else LineEnd(s, a + 1, room - 1)
  }

  /** How a full line [a, e) is broken: where it is cut, and where the next one starts. A break
      at white space is preferred to one behind a punctuation mark, and that to one at e. */
  function Cut(w: Width, s: string, a: nat, e: nat): (c: (nat, nat))
    requires w.Valid() && LineStart(s, a) && a < e < |s| && w.maxlen - w.mocklen <= e - a
    ensures a <= c.0 <= c.1 <= |s| && a < c.1 && c.0 <= e && LineStart(s, c.1)
    ensures forall k | c.0 <= k < c.1 :: IsSpace(s[k])
  {
    var lo := e - (w.maxlen - w.mocklen);
    var t := LastBreak(s, lo, e, true);
    if t != -1 then
      RunInsideLine(s, a, t);
      (RunStart(s, t), PastSpace(s, t + 1))
    else
      var u := LastBreak(s, lo, e, false);
      assert !BreaksAt(s, if u == -1 then e - 1 else u, true);
      if u != -1 then (u + 1, u + 1) else (e, e)
  }

  lemma RunInsideLine(s: string, a: nat, t: nat)
    requires LineStart(s, a) && a <= t < |s| && IsSpace(s[t])
    ensures a <= RunStart(s, t)
  {
  }

  /** How a line that is not the last one ends: where it is cut, what ends it, where the next
      line starts and what that counts already. */
  datatype Turn = Turn(cut: nat, end: Piece, next: nat, base: nat)

  function EndLine(w: Width, s: string, a: nat, base: nat): (n: Turn)
    requires w.Valid() && LineStart(s, a) && base <= w.mocklen && LineEnd(s, a, w.maxlen - base) < |s|
    ensures a <= n.cut <= n.next <= |s| && a < n.next && LineStart(s, n.next)
    ensures base + (n.cut - a) <= w.maxlen && forall k | a <= k < n.cut :: s[k] != '\n'
    ensures forall k | n.cut <= k < n.next :: IsSpace(s[k])
    ensures (n.end == Newline && n.base == 0) || (n.end == Inserted && n.base == w.mocklen)
    ensures var e := LineEnd(s, a, w.maxlen - base);
            if s[e] == '\n' then n.end == Newline && n.cut == e && n.next == PastSpace(s, e + 1)
            else n.end == Inserted && (n.cut, n.next) == Cut(w, s, a, e)
  {
    var e := LineEnd(s, a, w.maxlen - base);
    if s[e] == '\n' then Turn(e, Newline, PastSpace(s, e + 1), 0)
    else
      var (cut, next) := Cut(w, s, a, e);
      Turn(cut, Inserted, next, w.mocklen)
  }

  /** EndLine, once the end of the line is known. */
  lemma EndLineIs(w: Width, s: string, a: nat, base: nat, e: nat)
    requires w.Valid() && LineStart(s, a) && base <= w.mocklen && e == LineEnd(s, a, w.maxlen - base) < |s|
    ensures s[e] == '\n' ==> EndLine(w, s, a, base) == Turn(e, Newline, PastSpace(s, e + 1), 0)
    ensures s[e] != '\n' ==>
              && a < e && w.maxlen - w.mocklen <= e - a
              && EndLine(w, s, a, base) == Turn(Cut(w, s, a, e).0, Inserted, Cut(w, s, a, e).1, w.mocklen)
  {
  }

  /** The lines of s from a line start on; base is what the first of them counts already. */
  function Lines(w: Width, s: string, a: nat, base: nat): seq<Piece>
    requires w.Valid() && LineStart(s, a) && base <= w.mocklen
    decreases |s| - a
  {
    if LineEnd(s, a, w.maxlen - base) == |s| then [Line(a, |s|)]
    else
      var n := EndLine(w, s, a, base);
      [Line(a, n.cut), n.end] + Lines(w, s, n.next, n.base)
  }

  function PieceText(p: Piece, s: string, ins: string): string {
    match p
    case Line(lo, hi) => if lo <= hi <= |s| then s[lo..hi] else ""
    case Newline => "\n"
    case Inserted => ins
  }

  function Text(p: seq<Piece>, s: string, ins: string): string {
    if p == [] then "" else PieceText(p[0], s, ins) + Text(p[1..], s, ins)
  }

  // ---- the lines are where they are best ----

  /** Text of a line, what ends it, and more. */
  lemma TextCons(lo: nat, hi: nat, end: Piece, more: seq<Piece>, s: string, ins: string)
    requires lo <= hi <= |s|
    ensures Text([Line(lo, hi), end] + more, s, ins) == s[lo..hi] + (PieceText(end, s, ins) + Text(more, s, ins))
    ensures Text([Line(lo, hi)], s, ins) == s[lo..hi]
  {
    var p := [Line(lo, hi), end] + more;
    assert p[1..] == [end] + more && p[1..][1..] == more;
    assert [Line(lo, hi)][1..] == [];
  }

  lemma CutIsBest(w: Width, s: string, a: nat, e: nat)
    requires w.Valid() && LineStart(s, a) && a < e < |s| && w.maxlen - w.mocklen <= e - a
    ensures var c := Cut(w, s, a, e); BestBreak(s, e - (w.maxlen - w.mocklen), e, Break(c.0, c.1))
  {
    var lo := e - (w.maxlen - w.mocklen);
    var t := LastBreak(s, lo, e, true);
    if t != -1 {
      SpaceIsBest(s, lo, e, t);
    } else {
      PunctuationIsBest(s, lo, e);
    }
  }

  lemma SpaceIsBest(s: string, lo: nat, e: nat, t: nat)
    requires lo <= e <= |s| && LastBreak(s, lo, e, true) == t
    ensures IsSpace(s[t]) && CutAround(s, lo, e, t, Break(RunStart(s, t), PastSpace(s, t + 1)))
  {
    assert BreaksAt(s, t, true);
    forall k | t < k < e
      ensures !IsSpace(s[k])
    {
      assert !BreaksAt(s, k, true);
    }
  }

  lemma PunctuationIsBest(s: string, lo: nat, e: nat)
    requires lo < e <= |s| && LastBreak(s, lo, e, true) == -1
    ensures var u := LastBreak(s, lo, e, false);
            BestBreak(s, lo, e, if u != -1 then Break(u + 1, u + 1) else Break(e, e))
  {
    var u := LastBreak(s, lo, e, false);
    assert u != -1 ==> BreaksAt(s, u, false);
    forall k | lo <= k < e
      ensures !IsSpace(s[k]) && (u < k ==> IsAlnum(s[k]))
    {
      assert !BreaksAt(s, k, true) && (u < k ==> !BreaksAt(s, k, false));
    }
  }

  lemma NewlineEndsLine(w: Width, s: string, a: nat, base: nat, e: nat)
    requires base <= w.mocklen < w.maxlen && a <= e < |s| && base + (e - a) <= w.maxlen
    requires OneLine(s, a, e) && s[e] == '\n'
    ensures var b := Break(e, PastSpace(s, e + 1)); EndsLine(w, s, a, base, b) && AtNewline(s, b)
  {
  }

  lemma OverflowEndsLine(w: Width, s: string, a: nat, base: nat, e: nat, b: Break)
    requires base <= w.mocklen < w.maxlen && e == a + w.maxlen - base < |s| && OneLine(s, a, e) && s[e] != '\n'
    requires a <= b.cut <= b.next <= |s| && a < b.next && b.cut <= e && AllSpace(s, b.cut, b.next)
    requires BestBreak(s, e - (w.maxlen - w.mocklen), e, b)
    ensures EndsLine(w, s, a, base, b) && !AtNewline(s, b)
  {
  }

  lemma TurnEndsLine(w: Width, s: string, a: nat, base: nat)
    requires w.Valid() && LineStart(s, a) && base <= w.mocklen && LineEnd(s, a, w.maxlen - base) < |s|
    ensures var n := EndLine(w, s, a, base);
            EndsLine(w, s, a, base, Break(n.cut, n.next)) && (AtNewline(s, Break(n.cut, n.next)) <==> n.end == Newline)
  {
    var e := LineEnd(s, a, w.maxlen - base);
    EndLineIs(w, s, a, base, e);
    if s[e] == '\n' {
      NewlineEndsLine(w, s, a, base, e);
    } else {
      CutIsBest(w, s, a, e);
      var c := Cut(w, s, a, e);
      OverflowEndsLine(w, s, a, base, e, Break(c.0, c.1));
    }
  }

  /** The output is the text with its newlines, and with ins put in where a line is too long. */
  lemma {:induction false} LinesBreak(w: Width, s: string, a: nat, base: nat, ins: string) returns (breaks: seq<Break>)
    requires w.Valid() && LineStart(s, a) && base <= w.mocklen
    ensures Breaks(w, s, a, base, breaks) && Text(Lines(w, s, a, base), s, ins) == Joined(s, a, breaks, ins)
    decreases |s| - a
  {
    if LineEnd(s, a, w.maxlen - base) == |s| {
      TextCons(a, |s|, Newline, [], s, ins);
      breaks := [];
    } else {
      var n := EndLine(w, s, a, base);
      var b := Break(n.cut, n.next);
      var more := LinesBreak(w, s, n.next, n.base, ins);
      breaks := [b] + more;
      assert breaks[1..] == more;
      TurnEndsLine(w, s, a, base);
      LinesTurn(w, s, a, base);
      TextCons(a, n.cut, n.end, Lines(w, s, n.next, n.base), s, ins);
      JoinedCons(s, a, breaks, ins);
    }
  }

  // ---- the wrapper itself ----

  lemma {:induction false} LineEndsHere(s: string, a: nat, room: nat, p: nat)
    requires a <= p <= |s| && p - a <= room && forall k | a <= k < p :: s[k] != '\n'
    requires p == |s| || s[p] == '\n' || p - a == room
    ensures LineEnd(s, a, room) == p
    decreases room
  {
    if a < p {
      LineEndsHere(s, a + 1, room - 1, p);
    }
  }

  /** The output before the current line and the lines to come make up the whole output. */
  ghost predicate OnTrack(w: Width, s: string, ins: string, prev: string, a: nat, base: nat) {
    && w.Valid() && LineStart(s, a) && base <= w.mocklen
    && forall k: nat {:trigger Show(k)} :: Show(k) ==>
         prev + Text(Lines(w, s, a, base), s, ins) == Text(Lines(w, s, 0, 0), s, ins)
  }

  lemma StartTrack(w: Width, s: string, ins: string)
    requires w.Valid()
    ensures OnTrack(w, s, ins, "", 0, 0)
  {
    assert "" + Text(Lines(w, s, 0, 0), s, ins) == Text(Lines(w, s, 0, 0), s, ins);
  }

  lemma TextAfterTurn(prev: string, a: nat, cut: nat, end: Piece, more: seq<Piece>, s: string, ins: string)
    requires a <= cut <= |s|
    ensures prev + Text([Line(a, cut), end] + more, s, ins)
         == prev + s[a..cut] + PieceText(end, s, ins) + Text(more, s, ins)
  {
    TextCons(a, cut, end, more, s, ins);
    Assoc(prev, s[a..cut], PieceText(end, s, ins) + Text(more, s, ins));
    Assoc(prev + s[a..cut], PieceText(end, s, ins), Text(more, s, ins));
  }

  lemma LinesTurn(w: Width, s: string, a: nat, base: nat)
    requires w.Valid() && LineStart(s, a) && base <= w.mocklen && LineEnd(s, a, w.maxlen - base) < |s|
    ensures var n := EndLine(w, s, a, base);
            Lines(w, s, a, base) == [Line(a, n.cut), n.end] + Lines(w, s, n.next, n.base)
  {
  }

  ghost predicate ShowTurn(k: nat) { true }

  /** The line that starts at a ends as n says. */
  ghost predicate IsTurn(w: Width, s: string, a: nat, base: nat, n: Turn) {
    && a <= n.cut <= n.next <= |s| && a < n.next && n.base <= w.mocklen && LineStart(s, n.next)
    && forall k: nat {:trigger ShowTurn(k)} :: ShowTurn(k) ==>
         && w.Valid() && LineStart(s, a) && base <= w.mocklen && LineEnd(s, a, w.maxlen - base) < |s|
         && n == EndLine(w, s, a, base)
  }

  lemma MakeTurn(w: Width, s: string, a: nat, base: nat, n: Turn)
    requires w.Valid() && LineStart(s, a) && base <= w.mocklen && LineEnd(s, a, w.maxlen - base) < |s|
    requires n == EndLine(w, s, a, base)
    ensures IsTurn(w, s, a, base, n)
  {
  }

  lemma NewlineIsTurn(w: Width, s: string, a: nat, base: nat, p: nat, next: nat)
    requires w.Valid() && LineStart(s, a) && base <= w.mocklen && a <= p < |s| && base + (p - a) <= w.maxlen
    requires (forall k | a <= k < p :: s[k] != '\n') && s[p] == '\n' && next == PastSpace(s, p + 1)
    ensures IsTurn(w, s, a, base, Turn(p, Newline, next, 0))
  {
    LineEndsHere(s, a, w.maxlen - base, p);
    EndLineIs(w, s, a, base, p);
    MakeTurn(w, s, a, base, Turn(p, Newline, next, 0));
  }

  lemma OverflowIsTurn(w: Width, s: string, a: nat, base: nat, p: nat) returns (c: (nat, nat))
    requires w.Valid() && LineStart(s, a) && base <= w.mocklen && a <= p < |s| && base + (p - a) == w.maxlen
    requires (forall k | a <= k < p :: s[k] != '\n') && s[p] != '\n'
    ensures a < p && w.maxlen - w.mocklen <= p - a && c == Cut(w, s, a, p) && c.0 <= p
    ensures IsTurn(w, s, a, base, Turn(c.0, Inserted, c.1, w.mocklen))
  {
    LineEndsHere(s, a, w.maxlen - base, p);
    EndLineIs(w, s, a, base, p);
    c := Cut(w, s, a, p);
    MakeTurn(w, s, a, base, Turn(c.0, Inserted, c.1, w.mocklen));
  }

  /** After a line has been ended, the next one is on track. */
  lemma TurnTrack(w: Width, s: string, ins: string, prev: string, a: nat, base: nat,
                  n: Turn, now: string, next: nat, nextBase: nat)
    requires OnTrack(w, s, ins, prev, a, base) && IsTurn(w, s, a, base, n)
    requires now == prev + s[a..n.cut] + PieceText(n.end, s, ins) && next == n.next && nextBase == n.base
    ensures OnTrack(w, s, ins, now, next, nextBase)
  {
    assert Show(0) && ShowTurn(0);
    LinesTurn(w, s, a, base);
    TextAfterTurn(prev, a, n.cut, n.end, Lines(w, s, n.next, n.base), s, ins);
  }

  lemma LastTrack(w: Width, s: string, ins: string, prev: string, a: nat, base: nat)
    requires OnTrack(w, s, ins, prev, a, base) && LineEnd(s, a, w.maxlen - base) == |s|
    ensures prev + s[a..] == Text(Lines(w, s, 0, 0), s, ins)
  {
    assert Show(0);
    TextCons(a, |s|, Newline, [], s, ins);
  }

  method ChopMany(buf: Buffer, n: nat)
    requires buf.Valid() && n <= |buf.Contents()|
    modifies buf`pos
    ensures buf.Valid() && buf.Contents() == old(buf.Contents())[..|old(buf.Contents())| - n]
  {
    var i := 0;
    while i < n
      invariant 0 <= i <= n && buf.Valid()
      invariant buf.Contents() == old(buf.Contents())[..|old(buf.Contents())| - i]
    {
      buf.Chop();
      i := i + 1;
    }
  }

  /** Look back from p for white space, noting the last other break on the way; brkp is the
      position behind it, or -1. */
  method ScanBack(s: string, p: nat, lo: nat, ghost a: nat) returns (t: int, brkp: int)
    requires a <= lo < p <= |s| && forall k | a <= k < p :: s[k] != '\n'
    ensures t == LastBreak(s, lo, p, true)
    ensures t == -1 ==> brkp == (var u := LastBreak(s, lo, p, false); if u == -1 then -1 else u + 1)
  {
    t, brkp := p - 1, -1;
    while t >= lo && s[t] != '\n'
      invariant lo - 1 <= t < p
      invariant forall k | t < k < p :: !BreaksAt(s, k, true)
      invariant if brkp == -1 then (forall k | t < k < p :: !BreaksAt(s, k, false))
                else t < brkp - 1 < p && BreaksAt(s, brkp - 1, false)
                     && (forall k | brkp - 1 < k < p :: !BreaksAt(s, k, false))
    {
      if !IsAlnum(s[t]) && brkp == -1 {
        brkp := t + 1;
      }
      if IsSpace(s[t]) {
        assert BreaksAt(s, t, true);
        return;
      }
      t := t - 1;
    }
    t := -1;
  }

  method BackOverSpace(s: string, t: nat) returns (sp: nat)
    requires t < |s| && IsSpace(s[t])
    ensures sp == RunStart(s, t)
  {
    var i := t - 1;
    while i > 0 && IsSpace(s[i])
      invariant -1 <= i < t && (t > 0 ==> i >= 0 && Before(s, t - 1) == Before(s, i))
    {
      i := i - 1;
    }
    sp := i + 1;
  }

  method SkipAhead(s: string, i: nat) returns (next: nat)
    requires i <= |s|
    ensures next == PastSpace(s, i)
  {
    next := i;
    while next < |s| && IsSpace(s[next])
      invariant i <= next <= |s| && PastSpace(s, i) == PastSpace(s, next)
    {
      next := next + 1;
    }
  }

  /** The break at white space t that was found, and the forced one. */
  lemma CutFound(w: Width, s: string, a: nat, p: nat, lo: nat, t: int)
    requires w.Valid() && LineStart(s, a) && a < p < |s| && w.maxlen - w.mocklen <= p - a
    requires lo == p - (w.maxlen - w.mocklen) && t == LastBreak(s, lo, p, true)
    ensures Cut(w, s, a, p) ==
      if t != -1 then (RunStart(s, t), PastSpace(s, t + 1))
      else var u := LastBreak(s, lo, p, false); if u == -1 then (p, p) else (u + 1, u + 1)
  {
  }

  method CutOutput(buf: Buffer, s: string, ins: string, cut: nat, p: nat, ghost a: nat, ghost prev: string)
    requires buf.Valid() && a <= cut <= p <= |s| && buf.Contents() == prev + s[a..p]
    modifies buf, buf.data
    ensures buf.Valid() && (buf.data == old(buf.data) || fresh(buf.data))
    ensures buf.Contents() == prev + s[a..cut] + ins
  {
    ChopMany(buf, p - cut);
    assert buf.Contents() == prev + s[a..cut];
    buf.AppendString(ins);
  }

  /** Break an overlong line: take back what goes to the next line, and go back to there. */
  method BreakLine(w: Width, s: string, ins: string, buf: Buffer, p: nat, linelen: nat,
                   ghost a: nat, ghost prev: string) returns (next: nat)
    requires buf.Valid() && w.Valid() && LineStart(s, a) && a < p < |s| && forall k | a <= k < p :: s[k] != '\n'
    requires w.mocklen < linelen && linelen - w.mocklen - 1 == w.maxlen - w.mocklen <= p - a
    requires buf.Contents() == prev + s[a..p]
    modifies buf, buf.data
    ensures buf.Valid() && (buf.data == old(buf.data) || fresh(buf.data))
    ensures var c := Cut(w, s, a, p); next == c.1 && buf.Contents() == prev + s[a..c.0] + ins
  {
    var lo := p + 1 - (linelen - w.mocklen);
    var t, brkp := ScanBack(s, p, lo, a);
    CutFound(w, s, a, p, lo, t);
    if t != -1 {
      var sp := BackOverSpace(s, t);
      RunInsideLine(s, a, t);
      CutOutput(buf, s, ins, sp, p, a, prev);
      next := SkipAhead(s, t + 1);
    } else {
      next := if brkp == -1 then p else brkp;
      CutOutput(buf, s, ins, next, p, a, prev);
    }
  }

  /** The current line: it starts at a and counts base characters already, and prev is the
      output before it. */
  datatype Current = Current(prev: string, a: nat, base: nat)

  /** What the loop of the wrapper knows at p: s[a..p] has been output on the current line. */
  ghost predicate InLine(w: Width, s: string, ins: string, l: Current, p: nat, linelen: nat, out: string) {
    && OnTrack(w, s, ins, l.prev, l.a, l.base)
    && l.a <= p <= |s| && linelen == l.base + (p - l.a) <= w.maxlen
    && (forall k | l.a <= k < p :: s[k] != '\n')
    && out == l.prev + s[l.a..p]
  }

  /** A newline of the text ends the line; white space after it is passed over. */
  method EndAtNewline(w: Width, s: string, ins: string, buf: Buffer, p: nat, ghost l: Current, ghost linelen: nat)
      returns (next: nat, ghost m: Current)
    requires buf.Valid() && InLine(w, s, ins, l, p, linelen, buf.Contents()) && p < |s| && s[p] == '\n'
    modifies buf, buf.data
    ensures buf.Valid() && (buf.data == old(buf.data) || fresh(buf.data))
    ensures InLine(w, s, ins, m, next, 0, buf.Contents()) && m.a > l.a
  {
    buf.Append('\n');
    next := SkipAhead(s, p + 1);
    NewlineIsTurn(w, s, l.a, l.base, p, next);
    m := Current(l.prev + s[l.a..p] + "\n", next, 0);
    TurnTrack(w, s, ins, l.prev, l.a, l.base, Turn(p, Newline, next, 0), m.prev, next, 0);
  }

  /** An overlong line is broken. */
  method EndAtOverflow(w: Width, s: string, ins: string, buf: Buffer, p: nat, ghost l: Current, linelen: nat)
      returns (next: nat, ghost m: Current)
    requires buf.Valid() && InLine(w, s, ins, l, p, linelen, buf.Contents()) && p < |s| && s[p] != '\n'
    requires linelen == w.maxlen
    modifies buf, buf.data
    ensures buf.Valid() && (buf.data == old(buf.data) || fresh(buf.data))
    ensures InLine(w, s, ins, m, next, w.mocklen, buf.Contents()) && m.a > l.a
  {
    ghost var c := OverflowIsTurn(w, s, l.a, l.base, p);
    next := BreakLine(w, s, ins, buf, p, linelen + 1, l.a, l.prev);
    m := Current(l.prev + s[l.a..c.0] + ins, next, w.mocklen);
    TurnTrack(w, s, ins, l.prev, l.a, l.base, Turn(c.0, Inserted, next, w.mocklen), m.prev, next, w.mocklen);
  }

  lemma EndOfText(w: Width, s: string, ins: string, l: Current, linelen: nat, out: string)
    requires InLine(w, s, ins, l, |s|, linelen, out)
    ensures out == Text(Lines(w, s, 0, 0), s, ins)
  {
    LineEndsHere(s, l.a, w.maxlen - l.base, |s|);
    LastTrack(w, s, ins, l.prev, l.a, l.base);
  }

  lemma OneMoreCharacter(w: Width, s: string, ins: string, l: Current, p: nat, linelen: nat, out: string)
    requires InLine(w, s, ins, l, p, linelen, out) && p < |s| && s[p] != '\n' && linelen < w.maxlen
    ensures InLine(w, s, ins, l, p + 1, linelen + 1, out + [s[p]])
  {
    assert s[l.a..p + 1] == s[l.a..p] + [s[p]];
    Assoc(l.prev, s[l.a..p], [s[p]]);
  }

  /** out is the text broken where it is best, with the NUL behind it. */
  ghost predicate Wraps(w: Width, s: string, ins: string, out: string) {
    exists breaks :: Breaks(w, s, 0, 0, breaks) && out == Joined(s, 0, breaks, ins) + "\0"
  }

  /** What that means for the output: if ins has a newline, no line is too wide; nothing is lost but
      white space; and a text that fits is left as it is. */
  lemma WrapsMeans(w: Width, s: string, ins: string, out: string, tail: string, tab: string)
    requires Wraps(w, s, ins, out + "\0")
    ensures ins == tail + ("\n" + tab) && |tab| == w.mocklen ==> Narrow(out, w.maxlen + |tail|)
    ensures AllSpace(ins, 0, |ins|) ==> NonSpace(out) == NonSpace(s)
    ensures FitsAlready(s, w.maxlen) ==> out == s
  {
    var breaks :| Breaks(w, s, 0, 0, breaks) && out + "\0" == Joined(s, 0, breaks, ins) + "\0";
    assert out == (out + "\0")[..|out|] == Joined(s, 0, breaks, ins);
    assert "" + out == out && s[0..] == s;
    if ins == tail + ("\n" + tab) && |tab| == w.mocklen {
      JoinedNarrow(w, s, 0, breaks, "", tail, tab);
    }
    if AllSpace(ins, 0, |ins|) {
      JoinedKeepsText(w, s, 0, 0, breaks, ins);
    }
    if FitsAlready(s, w.maxlen) {
      JoinedUnchanged(w, s, 0, breaks, ins);
    }
  }

  method TextWrap(s: string, w: Width, ins: string) returns (buf: Buffer)
    requires w.Valid() && '\0' !in s
    ensures fresh(buf) && fresh(buf.data) && buf.Valid()
    ensures Wraps(w, s, ins, buf.Contents())
  {
    buf := new Buffer();
    var linelen: nat, p: nat := 0, 0;
    ghost var l := Current("", 0, 0);
    StartTrack(w, s, ins);
    while p < |s|
      invariant fresh(buf) && fresh(buf.data) && buf.Valid()
      invariant p <= |s| && l.a <= |s| && InLine(w, s, ins, l, p, linelen, buf.Contents())
      decreases |s| - l.a, |s| - p
    {
      if s[p] == '\n' {
        p, l := EndAtNewline(w, s, ins, buf, p, l, linelen);
        linelen := 0;
      } else if linelen + 1 > w.maxlen {
        p, l := EndAtOverflow(w, s, ins, buf, p, l, linelen);
        linelen := w.mocklen;
      } else {
        OneMoreCharacter(w, s, ins, l, p, linelen, buf.Contents());
        buf.Append(s[p]);
        linelen := linelen + 1;
        p := p + 1;
      }
    }
    EndOfText(w, s, ins, l, linelen, buf.Contents());
    ghost var breaks := LinesBreak(w, s, 0, 0, ins);
    buf.Append('\0');
  }
}
