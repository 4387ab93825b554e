/** What the line wrapper of text.c is for, told on its input and output alone: where a text is to be
    broken, and what the broken text is. */
module TextBreaks {
  import opened CType
  import opened Sequences

  /** The widest line, and what a line after inserted text counts before its first character. */
  datatype Width = Width(maxlen: nat, mocklen: nat) {
    ghost predicate Valid() {
      mocklen < maxlen
    }
  }

  /** A line ends before cut, and the next one begins at next. */
  datatype Break = Break(cut: nat, next: nat)

  predicate AllSpace(s: string, lo: nat, hi: nat) {
    lo <= hi <= |s| && forall k | lo <= k < hi :: IsSpace(s[k])
  }

  predicate AllAlnum(s: string, lo: nat, hi: nat) {
    lo <= hi <= |s| && forall k | lo <= k < hi :: IsAlnum(s[k])
  }

  predicate OneLine(s: string, lo: nat, hi: nat) {
    lo <= hi <= |s| && forall k | lo <= k < hi :: s[k] != '\n'
  }

  /** t is the last white space in s[lo..e], and the white space around it, from cut to next, is what
      is left out. (Of white space that begins the text, its first character stays.) */
  ghost predicate CutAround(s: string, lo: nat, e: nat, t: nat, b: Break) {
    && lo <= t < e <= |s| && IsSpace(s[t]) && (forall k | t < k < e :: !IsSpace(s[k]))
    && b.cut <= t < b.next && AllSpace(s, b.cut, b.next)
    && (b.next < |s| ==> !IsSpace(s[b.next])) && (b.cut > 1 ==> !IsSpace(s[b.cut - 1])) && (b.cut == 0 ==> t == 0)
  }

  /** The last character of s[lo..e] that is no letter or digit stands before the cut. */
  ghost predicate CutBehind(s: string, lo: nat, e: nat, b: Break) {
    && b.cut == b.next && lo < b.cut <= e <= |s| && !IsAlnum(s[b.cut - 1]) && AllAlnum(s, b.cut, e)
  }

  /** The best place to break a line that is full at e, looking back to lo: white space if there is
      any, else behind a character that is no letter or digit, else at e. */
  ghost predicate BestBreak(s: string, lo: nat, e: nat, b: Break) {
    || (exists t: nat :: CutAround(s, lo, e, t, b))
    || ((forall k | lo <= k < e <= |s| :: !IsSpace(s[k])) && CutBehind(s, lo, e, b))
    || (AllAlnum(s, lo, e) && b == Break(e, e))
  }

  predicate AtNewline(s: string, b: Break) {
    b.cut < |s| && s[b.cut] == '\n'
  }

  /** The line from a, which counts base characters already, ends at b: with its newline, if it has
      room for what is before it; otherwise it is too long, and is broken where that is best. */
  ghost predicate EndsLine(w: Width, s: string, a: nat, base: nat, b: Break) {
    && a <= b.cut <= b.next <= |s| && a < b.next && OneLine(s, a, b.cut)
    && base <= w.mocklen < w.maxlen && base + (b.cut - a) <= w.maxlen
    && AllSpace(s, b.cut, b.next)
    && if AtNewline(s, b) then
         b.next < |s| ==> !IsSpace(s[b.next])
       else
         var e := a + w.maxlen - base;
         e < |s| && OneLine(s, a, e + 1) && BestBreak(s, e - (w.maxlen - w.mocklen), e, b)
  }

  ghost predicate Breaks(w: Width, s: string, a: nat, base: nat, breaks: seq<Break>)
    decreases |breaks|
  {
    if breaks == [] then
      a <= |s| && OneLine(s, a, |s|) && base <= w.mocklen < w.maxlen && base + (|s| - a) <= w.maxlen
    else
      && EndsLine(w, s, a, base, breaks[0])
      && Breaks(w, s, breaks[0].next, if AtNewline(s, breaks[0]) then 0 else w.mocklen, breaks[1..])
  }

  /** s from a on with these breaks: a newline stays, and ins is put in everywhere else. */
  function Joined(s: string, a: nat, breaks: seq<Break>, ins: string): string
    decreases |breaks|
  {
    if breaks == [] then (if a <= |s| then s[a..] else "")
    else if a <= breaks[0].cut <= |s| then
      s[a..breaks[0].cut]
      + ((if AtNewline(s, breaks[0]) then "\n" else ins) + Joined(s, breaks[0].next, breaks[1..], ins))
    else ""
  }

  // ---- no line is too wide ----

  /** Between two newlines there are never more than n characters. */
  ghost predicate Narrow(s: string, n: nat) {
    forall i, j | 0 <= i <= j <= |s| && OneLine(s, i, j) :: j - i <= n
  }

  lemma NarrowConcat(x: string, y: string, n: nat)
    requires |x| <= n && Narrow(y, n)
    ensures Narrow(x + ("\n" + y), n)
  {
    var s, m := x + ("\n" + y), |x|;
    forall i, j | 0 <= i <= j <= |s| && OneLine(s, i, j)
      ensures j - i <= n
    {
      if i > m {
        forall k | i - (m + 1) <= k < j - (m + 1)
          ensures y[k] != '\n'
        {
          assert s[k + (m + 1)] == y[k];
        }
        assert OneLine(y, i - (m + 1), j - (m + 1));
      } else {
        assert s[m] == '\n';
      }
    }
  }

  lemma JoinedCons(s: string, a: nat, breaks: seq<Break>, ins: string)
    requires breaks != [] && a <= breaks[0].cut <= |s|
    ensures Joined(s, a, breaks, ins)
         == s[a..breaks[0].cut]
            + ((if AtNewline(s, breaks[0]) then "\n" else ins) + Joined(s, breaks[0].next, breaks[1..], ins))
  {
  }

  /** If ins is a newline between a tail of the old line and an indentation, of mocklen characters, of
      the new one, every line has at most maxlen characters, not counting the tail. */
  lemma {:induction false} JoinedNarrow(w: Width, s: string, a: nat, breaks: seq<Break>, indent: string,
                                        tail: string, tab: string)
    requires Breaks(w, s, a, |indent|, breaks) && |tab| == w.mocklen
    ensures Narrow(indent + Joined(s, a, breaks, tail + ("\n" + tab)), w.maxlen + |tail|)
    decreases |breaks|
  {
    if breaks != [] {
      var b := breaks[0];
      var next := if AtNewline(s, b) then "" else tab;
      JoinedNarrow(w, s, b.next, breaks[1..], next, tail, tab);
      var rest := Joined(s, b.next, breaks[1..], tail + ("\n" + tab));
      JoinedCons(s, a, breaks, tail + ("\n" + tab));
      if AtNewline(s, b) {
        assert "" + rest == rest;
        NarrowNewline(indent, s[a..b.cut], rest, w.maxlen + |tail|);
      } else {
        NarrowInserted(indent, s[a..b.cut], tail, tab, rest, w.maxlen + |tail|);
      }
    }
  }

  lemma NarrowNewline(indent: string, x: string, rest: string, n: nat)
    requires |indent| + |x| <= n && Narrow(rest, n)
    ensures Narrow(indent + (x + ("\n" + rest)), n)
  {
    NarrowConcat(indent + x, rest, n);
    Assoc(indent, x, "\n" + rest);
  }

  lemma NarrowInserted(indent: string, x: string, tail: string, tab: string, rest: string, n: nat)
    requires |indent| + |x| + |tail| <= n && Narrow(tab + rest, n)
    ensures Narrow(indent + (x + (tail + ("\n" + tab) + rest)), n)
  {
    NarrowConcat(indent + x + tail, tab + rest, n);
    Assoc("\n", tab, rest);
    Assoc(tail, "\n" + tab, rest);
    Assoc(indent, x, tail + ("\n" + (tab + rest)));
    Assoc(indent + x, tail, "\n" + (tab + rest));
  }

  // ---- nothing but white space is lost or added ----

  function NonSpace(s: string): string {
    if s == "" then "" else (if IsSpace(s[0]) then "" else [s[0]]) + NonSpace(s[1..])
  }

  lemma {:induction false} NonSpaceConcat(s: string, t: string)
    ensures NonSpace(s + t) == NonSpace(s) + NonSpace(t)
  {
    if s == "" {
      assert s + t == t;
    } else {
      assert (s + t)[0] == s[0] && (s + t)[1..] == s[1..] + t;
      NonSpaceConcat(s[1..], t);
    }
  }

  lemma {:induction false} NonSpaceSpaces(s: string)
    requires AllSpace(s, 0, |s|)
    ensures NonSpace(s) == ""
  {
    if s != "" {
      NonSpaceSpaces(s[1..]);
    }
  }

  lemma DropSpaces(x: string, y: string, z: string)
    requires AllSpace(y, 0, |y|)
    ensures NonSpace(x + (y + z)) == NonSpace(x) + NonSpace(z)
  {
    calc {
      NonSpace(x + (y + z));
      { NonSpaceConcat(x, y + z); }
      NonSpace(x) + NonSpace(y + z);
      { NonSpaceConcat(y, z); }
      NonSpace(x) + (NonSpace(y) + NonSpace(z));
      { NonSpaceSpaces(y); assert "" + NonSpace(z) == NonSpace(z); }
      NonSpace(x) + NonSpace(z);
    }
  }

  /** The non-white characters come out in order, if what is put in is white space (or nothing). */
  lemma {:induction false} JoinedKeepsText(w: Width, s: string, a: nat, base: nat, breaks: seq<Break>, ins: string)
    requires Breaks(w, s, a, base, breaks) && AllSpace(ins, 0, |ins|)
    ensures a <= |s| && NonSpace(Joined(s, a, breaks, ins)) == NonSpace(s[a..])
    decreases |breaks|
  {
    if breaks != [] {
      var b := breaks[0];
      JoinedKeepsText(w, s, b.next, if AtNewline(s, b) then 0 else w.mocklen, breaks[1..], ins);
      JoinedCons(s, a, breaks, ins);
      KeepsStep(s, a, b, if AtNewline(s, b) then "\n" else ins, Joined(s, b.next, breaks[1..], ins));
    }
  }

  lemma KeepsStep(s: string, a: nat, b: Break, put: string, rest: string)
    requires a <= b.cut <= b.next <= |s| && AllSpace(s, b.cut, b.next) && AllSpace(put, 0, |put|)
    requires NonSpace(rest) == NonSpace(s[b.next..])
    ensures NonSpace(s[a..b.cut] + (put + rest)) == NonSpace(s[a..])
  {
    DropSpaces(s[a..b.cut], put, rest);
    assert s[a..] == s[a..b.cut] + (s[b.cut..b.next] + s[b.next..]);
    DropSpaces(s[a..b.cut], s[b.cut..b.next], s[b.next..]);
  }

  // ---- what fits is left alone ----

  /** No line is too wide or begins with white space. */
  ghost predicate FitsAlready(s: string, n: nat) {
    Narrow(s, n) && forall k | 0 < k < |s| && s[k - 1] == '\n' :: !IsSpace(s[k])
  }

  lemma {:induction false} JoinedUnchanged(w: Width, s: string, a: nat, breaks: seq<Break>, ins: string)
    requires Breaks(w, s, a, 0, breaks) && FitsAlready(s, w.maxlen)
    ensures a <= |s| && Joined(s, a, breaks, ins) == s[a..]
    decreases |breaks|
  {
    if breaks != [] {
      var b := breaks[0];
      KeepsNewline(w, s, a, b);
      JoinedUnchanged(w, s, b.next, breaks[1..], ins);
      JoinedCons(s, a, breaks, ins);
      assert s[a..] == s[a..b.cut] + ("\n" + s[b.next..]);
    }
  }

  lemma KeepsNewline(w: Width, s: string, a: nat, b: Break)
    requires EndsLine(w, s, a, 0, b) && FitsAlready(s, w.maxlen)
    ensures AtNewline(s, b) && b.next == b.cut + 1
  {
    assert AtNewline(s, b) && b.cut + 1 < |s| ==> !IsSpace(s[b.cut + 1]);
  }

  // ---- words are broken only where they have to be ----

  /** If a break falls between two letters or digits, the maxlen - mocklen characters before it are
      all letters or digits. */
  lemma BreakInWord(w: Width, s: string, a: nat, base: nat, b: Break)
    requires EndsLine(w, s, a, base, b) && 0 < b.cut < |s| && IsAlnum(s[b.cut - 1]) && IsAlnum(s[b.cut])
    ensures w.maxlen - w.mocklen <= b.cut && AllAlnum(s, b.cut - (w.maxlen - w.mocklen), b.cut)
  {
  }
}
