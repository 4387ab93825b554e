/** Reading a stream by lines through a buffer (util.c, my_fgets). */
module Fgets {
  import opened Shut
  import opened Wrappers

  // ---- lines, of which nothing below depends on how the stream is read ----

  /** The place of the first newline, or the length of the text. */
  function Newline(text: string): (n: nat)
    ensures n <= |text| && (n < |text| ==> text[n] == '\n')
    ensures forall i | 0 <= i < n :: text[i] != '\n'
  {
    if text == "" || text[0] == '\n' then 0 else 1 + Newline(text[1..])
  }

  lemma NewlineIs(text: string, n: nat)
    requires n <= |text| && (n < |text| ==> text[n] == '\n') && '\n' !in text[..n]
    ensures Newline(text) == n
  {
    forall i | 0 <= i < n
      ensures text[i] != '\n'
    {
      assert text[i] in text[..n];
    }
  }

  lemma Slices(b: string, i: nat, j: nat, k: nat)
    requires i + k <= j <= |b|
    ensures b[i..j][..k] == b[i..i + k] && b[i..j][k..] == b[i + k..j]
  {
  }

  /** The lines of a text, each with its newline. What follows the last newline is no line. */
  function Lines(text: string): seq<string>
    decreases |text|
  {
    var n := Newline(text);
    if n == |text| then [] else [text[..n + 1]] + Lines(text[n + 1..])
  }

  /** What follows the last newline. */
  function Tail(text: string): string
    decreases |text|
  {
    var n := Newline(text);
    if n == |text| then text else Tail(text[n + 1..])
  }

  function Joined(lines: seq<string>): string {
    if lines == [] then "" else lines[0] + Joined(lines[1..])
  }

  /** The lines are the text up to its last newline, cut after each newline. */
  lemma {:induction false} LinesAreTheText(text: string)
    ensures text == Joined(Lines(text)) + Tail(text)
    ensures Newline(Tail(text)) == |Tail(text)|
    decreases |text|
  {
    var n := Newline(text);
    if n < |text| {
      var line, rest := text[..n + 1], text[n + 1..];
      LinesAreTheText(rest);
      JoinedMore(line, Lines(rest));
      Rejoin(text, n + 1, Joined(Lines(rest)), Tail(rest));
    }
  }

  lemma Rejoin(text: string, n: nat, a: string, b: string)
    requires n <= |text| && text[n..] == a + b
    ensures text == text[..n] + a + b
  {
    assert text == text[..n] + text[n..];
  }

  lemma JoinedMore(line: string, lines: seq<string>)
    ensures Joined([line] + lines) == line + Joined(lines)
  {
    assert ([line] + lines)[1..] == lines;
  }

  lemma {:induction false} LinesEndInNewlines(text: string, k: nat)
    requires k < |Lines(text)|
    ensures Lines(text)[k] != "" && Newline(Lines(text)[k]) == |Lines(text)[k]| - 1
    decreases |text|
  {
    var n := Newline(text);
    if k == 0 {
      NewlineIs(text[..n + 1], n);
    } else {
      LinesEndInNewlines(text[n + 1..], k - 1);
    }
  }

  ghost predicate AllFit(text: string, room: nat) {
    forall line | line in Lines(text) :: |line| <= room
  }

  /** What one call does: the text it leaves in s, if it does not fail, and how much of the stream
      it uses up. */
  datatype Outcome = Outcome(ok: bool, line: string, used: nat)

  /** pending is what has not been read yet, of which `buffered' characters are in the buffer, and
      room is the size of s less the NUL. */
  function Call(pending: string, buffered: nat, room: nat): (o: Outcome)
    ensures o.used <= |pending| && (o.ok ==> o.line == pending[..o.used])
  {
    var n := Newline(pending);
    if room == 0 then Outcome(true, "", 0)
    else if n < |pending| && n < room then Outcome(true, pending[..n + 1], n + 1)
    else if |pending| < room then Outcome(false, "", |pending|)
    else if n < |pending| && n < buffered then Outcome(true, pending[..room], room)
    else Outcome(false, "", room)
  }

  /** A call succeeds exactly if there is a line that fits into s, or is already in the buffer as a
      whole; it leaves that line in s, or as much of it as there is room for. A failing call has
      used up as much as there is room for, or all there is. */
  lemma WhatIsRead(pending: string, buffered: nat, room: nat)
    requires room > 0
    ensures var o, lines := Call(pending, buffered, room), Lines(pending);
      && (o.ok <==> lines != [] && (|lines[0]| <= room || |lines[0]| <= buffered))
      && (o.ok ==> o.line == if |lines[0]| <= room then lines[0] else lines[0][..room])
      && o.used == if o.ok then |o.line| else if |pending| < room then |pending| else room
  {
    var n := Newline(pending);
    if room <= n < |pending| {
      assert pending[..n + 1][..room] == pending[..room];
    }
  }

  /** What a call does depends on what is in a buffer of this size exactly if a first line does not
      fit into s, but does fit into the buffer: it is then cut if its newline is in the buffer, and
      otherwise lost. */
  lemma BufferMattersIff(pending: string, room: nat, size: nat)
    requires room > 0
    ensures (forall buffered: nat | buffered <= size && buffered <= |pending| ::
               Call(pending, buffered, room) == Call(pending, 0, room))
            <==> (Lines(pending) == [] || |Lines(pending)[0]| <= room || size < |Lines(pending)[0]|)
  {
    var n := Newline(pending);
    if room <= n < |pending| && n < size {
      assert Call(pending, n + 1, room).ok && !Call(pending, 0, room).ok;
    }
  }

  /** It does not depend on that if no more is in the buffer than there is room for. */
  lemma SmallBufferNeverMatters(pending: string, buffered: nat, room: nat)
    requires buffered <= room
    ensures Call(pending, buffered, room) == Call(pending, 0, room)
  {
  }

  /** As much of a text as is copied: up to a newline, or all, as far as there is room. */
  function Chunk(text: string, room: nat): (n: nat)
    ensures n <= room && n <= |text| && (text != "" && room > 0 ==> n > 0)
  {
    var upto := if Newline(text) < |text| then Newline(text) + 1 else |text|;
    if upto < room then upto else room
  }

  lemma NewlineAfter(a: string, b: string)
    requires Newline(a) == |a|
    ensures Newline(a + b) == |a| + Newline(b)
  {
    var n := |a| + Newline(b);
    forall i | 0 <= i < n
      ensures (a + b)[i] != '\n'
    {
      assert i < |a| ==> (a + b)[i] == a[i];
      assert i >= |a| ==> (a + b)[i] == b[i - |a|];
    }
    NewlineIs(a + b, n);
  }

  lemma NoNewlineBefore(text: string, n: nat)
    requires n <= Newline(text)
    ensures Newline(text[..n]) == n
  {
    NewlineIs(text[..n], n);
  }

  // The next three predicates are shut: what they say is seen only where Show(0) is asserted.

  /** The call ends as it should: with this result, and with `left' still unread. */
  ghost predicate Ends(pending: string, buffered: nat, room: nat, ok: bool, line: string, left: string) {
    forall k: nat {:trigger Show(k)} :: Show(k) ==>
      var o := Call(pending, buffered, room);
      ok == o.ok && left == pending[o.used..] && (ok ==> line == o.line)
  }

  lemma Starting(pending: string, b: string, rest: string, room: nat, first: bool)
    requires pending == b + rest && (!first ==> b == "")
    ensures Midway(pending, |b|, room, "", b, rest, first)
    ensures room == 0 ==> Ends(pending, |b|, room, true, "", pending)
  {
    assert Show(0);
    assert "" + b + rest == b + rest;
  }

  /** c characters of b have been copied. */
  ghost predicate Copied(b: string, room: nat, c: nat) {
    c <= room && c <= |b| && forall k: nat {:trigger Show(k)} :: Show(k) ==> c == Chunk(b, room)
  }

  /** In the course of a call: a has been copied, b is in the buffer, and the other end has yet to
      deliver rest. The buffer may hold more than there is room for only at first. */
  ghost predicate Midway(pending: string, buffered: nat, room: nat, a: string, b: string, rest: string, first: bool) {
    forall k: nat {:trigger Show(k)} :: Show(k) ==>
    && pending == a + b + rest && |a| <= room && Newline(a) == |a|
    && (if first then a == "" && |b| == buffered
        else Newline(pending) >= buffered && (|a| == room || |a| + |b| <= room))
  }

  lemma NewlineBeyond(a: string, b: string, rest: string)
    requires Newline(a) == |a| && Newline(b) < |b|
    ensures Newline(a + b + rest) == |a| + Newline(b)
  {
    NewlineAfter(a, b);
    NewlineWithin(a + b, rest);
  }

  lemma NewlineWithin(a: string, b: string)
    requires Newline(a) < |a|
    ensures Newline(a + b) == Newline(a)
  {
    var n := Newline(a);
    assert (a + b)[..n] == a[..n];
    NewlineIs(a + b, n);
  }

  lemma TakeDrop(a: string, b: string, rest: string, c: nat)
    requires c <= |b|
    ensures (a + b + rest)[..|a| + c] == a + b[..c]
    ensures (a + b + rest)[|a| + c..] == b[c..] + rest
  {
    var p := a + b + rest;
    assert p == a + b[..c] + (b[c..] + rest) by {
      assert b == b[..c] + b[c..];
    }
  }

  lemma EndsFound(pending: string, buffered: nat, room: nat, c: nat)
    requires room > 0 && Newline(pending) < |pending|
    requires if Newline(pending) < room then c == Newline(pending) + 1 else c == room && Newline(pending) < buffered
    ensures c <= |pending| && Ends(pending, buffered, room, true, pending[..c], pending[c..])
  {
    assert Show(0);
  }

  lemma FoundNewline(pending: string, buffered: nat, room: nat, a: string, b: string, rest: string, first: bool, c: nat)
    requires Midway(pending, buffered, room, a, b, rest, first) && |a| < room && Newline(b) < |b|
    requires Copied(b, room - |a|, c)
    ensures Ends(pending, buffered, room, true, a + b[..c], b[c..] + rest)
  {
    FoundPlace(pending, buffered, room, a, b, rest, first, c);
    EndsFound(pending, buffered, room, |a| + c);
    TakeDrop(a, b, rest, c);
  }

  lemma FoundPlace(pending: string, buffered: nat, room: nat, a: string, b: string, rest: string, first: bool, c: nat)
    requires Midway(pending, buffered, room, a, b, rest, first) && |a| < room && Newline(b) < |b|
    requires Copied(b, room - |a|, c)
    ensures pending == a + b + rest && Newline(pending) < |pending|
    ensures if Newline(pending) < room then |a| + c == Newline(pending) + 1
            else |a| + c == room && Newline(pending) < buffered
  {
    assert Show(0);
    NewlineBeyond(a, b, rest);
  }

  lemma NoNewline(pending: string, buffered: nat, room: nat, a: string, b: string, rest: string, first: bool, c: nat)
    requires Midway(pending, buffered, room, a, b, rest, first) && |a| < room && Newline(b) == |b|
    requires Copied(b, room - |a|, c)
    ensures Midway(pending, buffered, room, a + b[..c], b[c..], rest, false)
    ensures c == |b| || |a| + c == room
  {
    assert Show(0);
    NoNewlineBefore(b, c);
    NewlineAfter(a, b[..c]);
    NewlineAfter(a, b);
    NewlineAfter(a + b, rest);
    Regroup(a, b, rest, c);
  }

  lemma Regroup(a: string, b: string, rest: string, c: nat)
    requires c <= |b|
    ensures a + b + rest == a + b[..c] + b[c..] + rest
  {
    assert b == b[..c] + b[c..];
    assert a + b == a + b[..c] + b[c..];
  }

  lemma EndsOutOfRoom(pending: string, buffered: nat, room: nat)
    requires 0 < room <= Newline(pending) && buffered <= Newline(pending)
    ensures Ends(pending, buffered, room, false, "", pending[room..])
  {
    assert Show(0);
  }

  lemma OutOfRoom(pending: string, buffered: nat, room: nat, a: string, b: string, rest: string)
    requires Midway(pending, buffered, room, a, b, rest, false) && |a| == room && room > 0
    ensures Ends(pending, buffered, room, false, "", b + rest)
  {
    RoomUsedUp(pending, buffered, room, a, b, rest);
    EndsOutOfRoom(pending, buffered, room);
  }

  lemma RoomUsedUp(pending: string, buffered: nat, room: nat, a: string, b: string, rest: string)
    requires Midway(pending, buffered, room, a, b, rest, false) && |a| == room && room > 0
    ensures room <= Newline(pending) && buffered <= Newline(pending) && pending[room..] == b + rest
  {
    assert Show(0);
    NewlineAfter(a, b + rest);
    assert a + b + rest == a + (b + rest);
  }

  lemma OutOfText(pending: string, buffered: nat, room: nat, a: string)
    requires Midway(pending, buffered, room, a, "", "", false) && |a| < room
    ensures Ends(pending, buffered, room, false, "", "")
  {
    assert Show(0);
    assert a + "" + "" == a;
  }

  lemma Refilled(pending: string, buffered: nat, room: nat, a: string, rest: string, nr: nat)
    requires Midway(pending, buffered, room, a, "", rest, false) && nr <= |rest| && |a| + nr <= room
    ensures Midway(pending, buffered, room, a, rest[..nr], rest[nr..], false)
  {
    assert Show(0);
    assert rest == rest[..nr] + rest[nr..];
    assert a + "" + rest == a + rest[..nr] + rest[nr..];
  }

  /** What a read of s[i] yields; behind the end of s that can be anything. */
  method Peek(s: array<char>, i: nat) returns (x: char)
    ensures i < s.Length ==> x == s[i]
  {
    if i < s.Length {
      x := s[i];
    } else {
      x := *;
    }
  }

  /** strnchr: the place of the first c among the len characters from start on. It reads the character
      behind them, too, but that makes no difference. */
  method Strnchr(s: array<char>, start: nat, c: char, len: nat) returns (r: Option<nat>)
    requires start + len <= s.Length
    ensures r.Some? ==> r.value < len && s[start + r.value] == c && c !in s[..][start..start + r.value]
    ensures r.None? ==> c !in s[..][start..start + len]
  {
    var pos := 0;
    var x := Peek(s, start + pos);
    while x != c && pos < len
      invariant 0 <= pos <= len && c !in s[..][start..start + pos]
      invariant pos < len ==> x == s[start + pos]
      decreases len - pos
    {
      assert s[..][start..start + pos + 1] == s[..][start..start + pos] + [x];
      pos := pos + 1;
      x := Peek(s, start + pos);
    }
    r := if pos == len then None else Some(pos);
  }

  /** memcpy of a piece of text. */
  method Copy(from: array<char>, i: nat, to: array<char>, j: nat, n: nat, ghost piece: string)
    requires from != to && i + n <= from.Length && j + n <= to.Length && piece == from[..][i..i + n]
    modifies to
    ensures to[..j + n] == old(to[..j]) + piece
  {
    forall k | 0 <= k < n {
      to[j + k] := from[i + k];
    }
  }

  /** How a turn of the loop ends: it goes on, or a line is complete, or there is none. */
  datatype Status = More | Line | Null

  /** struct ustream: places start to end of buf hold what has been read ahead; start is -1 when
      there is nothing. rest is what the other end has yet to deliver. */
  class UStream {
    const buf: array<char>
    var start: int
    var end: int
    var rest: string

    ghost predicate Valid()
      reads this
    {
      buf.Length > 0 && (start == -1 || 0 <= start <= end < buf.Length)
    }

    ghost function Buffered(): string
      reads this, buf
      requires Valid()
    {
      if start == -1 then "" else buf[..][start..end + 1]
    }

    ghost function Pending(): string
      reads this, buf
      requires Valid()
    {
      Buffered() + rest
    }

    constructor (size: nat, text: string)
      requires size > 0
      ensures Valid() && start == -1 && rest == text && buf.Length == size && fresh(buf)
      ensures Pending() == text && Buffered() == ""
    {
      buf := new char[size];
      start, end, rest := -1, -1, text;
    }

    /** A read of at most len characters delivers any number of them, but none only if none was
        asked for or the stream is at its end. */
    method ReadF(len: nat) returns (nr: nat)
      requires Valid() && len <= buf.Length && (start == -1 || len == 0)
      modifies this`rest, buf
      ensures nr <= len && nr <= |old(rest)| && (nr == 0 <==> len == 0 || old(rest) == "")
      ensures buf[..nr] == old(rest)[..nr] && rest == old(rest)[nr..]
      ensures nr == 0 ==> buf[..] == old(buf[..])
    {
      if len == 0 || rest == "" {
        return 0;
      }
      nr :| 1 <= nr <= len && nr <= |rest|;
      forall i | 0 <= i < nr {
        buf[i] := rest[i];
      }
      rest := rest[nr..];
    }

    /** Look for a newline in the buffer. */
    method Scan() returns (upto: nat, nl: bool)
      requires Valid() && start != -1
      ensures nl <==> Newline(Buffered()) < |Buffered()|
      ensures upto == if nl then Newline(Buffered()) + 1 else |Buffered()|
    {
      var len := end - start + 1;
      var pos := Strnchr(buf, start, '\n', len);
      nl := pos.Some?;
      upto := if nl then pos.value + 1 else len;
      ghost var n := if nl then pos.value else len;
      Slices(buf[..], start, end + 1, n);
      NewlineIs(Buffered(), n);
    }

    /** Copy from the buffer, where b is, up to a newline, or all of it, as far as there is room. */
    method CopyOut(s: array<char>, total: nat, remaining: nat, ghost b: string) returns (chunksiz: nat, nl: bool)
      requires Valid() && start != -1 && s != buf && remaining > 0 && total + remaining < s.Length && b == Buffered()
      modifies this`start, s
      ensures Valid() && 1 <= chunksiz && Copied(b, remaining, chunksiz)
      ensures Buffered() == b[chunksiz..]
      ensures s[..total + chunksiz] == old(s[..total]) + b[..chunksiz]
      ensures nl <==> Newline(b) < |b|
    {
      var upto;
      upto, nl := Scan();
      chunksiz := if upto < remaining then upto else remaining;
      MoveOut(s, total, chunksiz, b);
      Advance(chunksiz);
    }

    method MoveOut(s: array<char>, total: nat, n: nat, ghost b: string)
      requires Valid() && start != -1 && s != buf && total + n <= s.Length && b == Buffered() && n <= |b|
      modifies s
      ensures s[..total + n] == old(s[..total]) + b[..n] && Buffered() == b
    {
      Slices(buf[..], start, end + 1, n);
      Copy(buf, start, s, total, n, b[..n]);
    }

    /** Forget the first n characters in the buffer. */
    method Advance(n: nat)
      requires Valid() && start != -1 && n <= |Buffered()|
      modifies this`start
      ensures Valid() && Buffered() == old(Buffered())[n..]
    {
      Slices(buf[..], start, end + 1, n);
      start := start + n;
      if start > end {
        start := -1;
      }
    }

    /** Nothing found: read more. */
    method Refill(remaining: nat) returns (nr: nat)
      requires Valid() && (start == -1 || remaining == 0)
      modifies this`start, this`end, this`rest, buf
      ensures Valid() && nr <= remaining && nr <= |old(rest)|
      ensures nr == 0 ==> (remaining == 0 || old(rest) == "") && Buffered() == old(Buffered()) && rest == old(rest)
      ensures nr > 0 ==> start != -1 && Buffered() == old(rest)[..nr] && rest == old(rest)[nr..]
    {
      var chunksiz := if remaining < buf.Length then remaining else buf.Length;
      nr := ReadF(chunksiz);
      if nr != 0 {
        start, end := 0, nr - 1;
        assert buf[..][0..nr] == buf[..nr];
      }
    }

    /** The first half of a turn of the loop. */
    method CopyPart(s: array<char>, total: nat, remaining: nat,
                    ghost p: string, ghost buffered: nat, ghost room: nat, ghost first: bool)
        returns (chunksiz: nat, nl: bool)
      requires Valid() && start != -1 && s != buf && remaining > 0 && room == total + remaining < s.Length
      requires Midway(p, buffered, room, s[..total], Buffered(), rest, first)
      modifies this`start, s
      ensures Valid() && 1 <= chunksiz <= remaining
      ensures nl ==> Ends(p, buffered, room, true, s[..total + chunksiz], Pending())
      ensures !nl ==> Midway(p, buffered, room, s[..total + chunksiz], Buffered(), rest, false)
      ensures !nl ==> start == -1 || chunksiz == remaining
      ensures |Buffered()| <= |old(Buffered())|
    {
      ghost var a, b := s[..total], Buffered();
      chunksiz, nl := CopyOut(s, total, remaining, b);
      if nl {
        FoundNewline(p, buffered, room, a, b, rest, first, chunksiz);
      } else {
        NoNewline(p, buffered, room, a, b, rest, first, chunksiz);
      }
    }

    /** The second half. */
    method ReadPart(remaining: nat, ghost p: string, ghost buffered: nat, ghost room: nat, ghost a: string)
        returns (nr: nat)
      requires Valid() && (start == -1 || remaining == 0) && |a| + remaining == room && room > 0
      requires Midway(p, buffered, room, a, Buffered(), rest, false)
      modifies this`start, this`end, this`rest, buf
      ensures Valid()
      ensures nr == 0 ==> Ends(p, buffered, room, false, "", Pending())
      ensures nr > 0 ==> start != -1 && remaining > 0 && Midway(p, buffered, room, a, Buffered(), rest, false)
      ensures |Buffered()| <= if nr == 0 then |old(Buffered())| else remaining
    {
      ghost var b, was := Buffered(), rest;
      nr := Refill(remaining);
      if nr > 0 {
        Refilled(p, buffered, room, a, was, nr);
      } else if remaining == 0 {
        OutOfRoom(p, buffered, room, a, b, was);
      } else {
        OutOfText(p, buffered, room, a);
      }
    }

    /** One turn of the loop. a and b are what is in s and in the buffer. */
    method Turn(s: array<char>, total: nat, remaining: nat,
                ghost p: string, ghost buffered: nat, ghost room: nat, ghost a: string, ghost first: bool)
        returns (copied: nat, status: Status, ghost a': string, ghost b': string)
      requires Valid() && s != buf && remaining > 0 && room == total + remaining < s.Length
      requires a == s[..total] && Midway(p, buffered, room, a, Buffered(), rest, first) && (first ==> start != -1)
      modifies this`start, this`end, this`rest, buf, s
      ensures Valid() && copied <= remaining && a' == s[..total + copied] && b' == Buffered()
      ensures status == Line ==> Ends(p, buffered, room, true, a', b' + rest)
      ensures status == Null ==> Ends(p, buffered, room, false, "", b' + rest)
      ensures status == More ==>
                && start != -1 && copied < remaining && (old(start) != -1 ==> copied > 0)
                && Midway(p, buffered, room, a', b', rest, false)
      ensures |Buffered()| <= |old(Buffered())| || |Buffered()| <= remaining
    {
      copied := 0;
      if start != -1 {
        var nl;
        copied, nl := CopyPart(s, total, remaining, p, buffered, room, first);
        if nl {
          return copied, Line, s[..total + copied], Buffered();
        }
      }
      a' := s[..total + copied];
      var nr := ReadPart(remaining - copied, p, buffered, room, a');
      b' := Buffered();
      status := if nr == 0 then Null else More;
    }

    /** my_fgets. If ok, the line and a NUL are in s; otherwise NULL has been returned. */
    method MyFgets(s: array<char>, siz: nat) returns (ok: bool, ghost line: string)
      requires Valid() && s != buf && 0 < siz <= s.Length
      modifies this`start, this`end, this`rest, buf, s
      ensures Valid() && Ends(old(Pending()), |old(Buffered())|, siz - 1, ok, line, Pending())
      ensures ok ==> |line| < siz && s[..|line|] == line && s[|line|] == '\0'
      // no more is read ahead than there was room for
      ensures |Buffered()| <= |old(Buffered())| || |Buffered()| < siz
    {
      ghost var p, b, buffered, room := Pending(), Buffered(), |Buffered()|, siz - 1;
      var remaining, total := siz - 1, 0;
      ghost var first := start != -1;
      Starting(p, b, rest, room, first);
      line := "";
      while remaining > 0
        invariant 0 <= remaining && 0 <= total && total + remaining == room && Valid()
        invariant b == Buffered() && line == s[..total]
        invariant Midway(p, buffered, room, line, b, rest, first)
        invariant first ==> start != -1
        invariant remaining == 0 ==> room == 0 && b + rest == p
        invariant |b| <= buffered || |b| <= room
        decreases remaining, if start == -1 then 1 else 0
      {
        var copied, status;
        copied, status, line, b := Turn(s, total, remaining, p, buffered, room, line, first);
        remaining := remaining - copied;
        total := total + copied;
        first := false;
        if status == Null {
          return false, "";
        }
        if status == Line {
          break;
        }
      }
      s[total] := '\0';
      ok := true;
    }

    /** Calls until one fails. However the reads split the stream, and whatever is in the buffer at
        the start, they deliver its lines, one by one. */
    method ReadLines(s: array<char>, siz: nat) returns (ghost lines: seq<string>)
      requires Valid() && s != buf && 1 < siz <= s.Length && AllFit(Pending(), siz - 1)
      modifies this`start, this`end, this`rest, buf, s
      ensures Valid() && lines == Lines(old(Pending()))
    {
      lines := [];
      ghost var all, left := Lines(Pending()), Pending();
      var ok := true;
      while ok
        invariant Valid() && left == Pending()
        invariant ok ==> AllFit(left, siz - 1) && all == lines + Lines(left)
        invariant !ok ==> all == lines
        decreases |left|, ok
      {
        ghost var line, buffered := "", |Buffered()|;
        ok, line := MyFgets(s, siz);
        ghost var next := Pending();
        OneLine(left, buffered, siz - 1, ok, line, next);
        if ok {
          Append(lines, line, Lines(next));
          lines := lines + [line];
        }
        left := next;
      }
    }

    /** The characters that may be in the buffer are no more than it holds. */
    lemma BufferMatters(pending: string, room: nat)
      requires room > 0
      ensures (forall buffered: nat | buffered <= buf.Length && buffered <= |pending| ::
                 Call(pending, buffered, room) == Call(pending, 0, room))
              <==> (Lines(pending) == [] || |Lines(pending)[0]| <= room || buf.Length < |Lines(pending)[0]|)
    {
      BufferMattersIff(pending, room, buf.Length);
    }
  }

  /** A call on an empty buffer, at an empty line: it reads once, and finds the newline at once. */
  method EmptyLine(us: UStream, s: array<char>, siz: nat, ghost text: string) returns (nr: nat)
    requires us.Valid() && us.start == -1 && s != us.buf && 1 < siz <= s.Length
    requires text == us.rest != "" && Newline(text) == 0
    modifies us`start, us`end, us`rest, us.buf, s
    ensures us.Valid() && 1 <= nr <= |text|
    ensures us.Pending() == text[1..] && |us.Buffered()| == nr - 1
  {
    nr := us.Refill(siz - 1);
    ghost var b := us.Buffered();
    var chunksiz, nl := us.CopyOut(s, 0, siz - 1, b);
    FirstLineEmpty(text, nr, siz - 1, chunksiz);
  }

  /** Two calls, of which the second has less room than its line is long: how many characters the read
      of the first call delivers decides whether that line is cut or lost. */
  method CutOrLost(text: string, size: nat, s: array<char>, siz: nat, lessSiz: nat)
      returns (nr: nat, ok: bool, ghost line: string)
    requires size > 0 && text != "" && Newline(text) == 0 && 1 < siz <= s.Length
    requires 1 < lessSiz <= Newline(text[1..]) + 1 <= |text| - 1 && lessSiz <= s.Length
    modifies s
    ensures 1 <= nr <= |text|
    ensures ok <==> nr > Newline(text[1..]) + 1
    ensures ok ==> line == text[1..][..lessSiz - 1]
  {
    var us := new UStream(size, text);
    nr := EmptyLine(us, s, siz, text);
    ok, line := TooLongLine(us, s, lessSiz, text[1..]);
  }

  lemma FirstLineEmpty(text: string, nr: nat, room: nat, c: nat)
    requires text != "" && Newline(text) == 0 && 1 <= nr <= |text| && room > 0 && Copied(text[..nr], room, c)
    ensures c == 1 && text[..nr][c..] + text[nr..] == text[1..] && |text[..nr][c..]| == nr - 1
  {
    assert Show(0);
    assert Newline(text[..nr]) == 0;
  }

  /** A call that has less room than the line is long. */
  method TooLongLine(us: UStream, s: array<char>, siz: nat, ghost text: string) returns (ok: bool, ghost line: string)
    requires us.Valid() && s != us.buf && text == us.Pending()
    requires 1 < siz <= s.Length && siz <= Newline(text) + 1 <= |text|
    modifies us`start, us`end, us`rest, us.buf, s
    ensures ok <==> Newline(text) < old(|us.Buffered()|)
    ensures ok ==> line == text[..siz - 1]
  {
    ghost var buffered := |us.Buffered()|;
    ok, line := us.MyFgets(s, siz);
    CutIffBuffered(text, buffered, siz - 1, ok, line, us.Pending());
  }

  lemma CutIffBuffered(pending: string, buffered: nat, room: nat, ok: bool, line: string, left: string)
    requires 0 < room <= Newline(pending) < |pending| && Ends(pending, buffered, room, ok, line, left)
    ensures ok <==> Newline(pending) < buffered
    ensures ok ==> line == pending[..room]
  {
    assert Show(0);
  }

  lemma Append(lines: seq<string>, line: string, rest: seq<string>)
    ensures lines + ([line] + rest) == lines + [line] + rest
  {
  }

  /** If the lines fit, a call that ends as it should reads the first of them, or fails because
      there is none. */
  lemma OneLine(pending: string, buffered: nat, room: nat, ok: bool, line: string, left: string)
    requires Ends(pending, buffered, room, ok, line, left) && room > 0 && AllFit(pending, room)
    ensures ok <==> Lines(pending) != []
    ensures ok ==> Lines(pending) == [line] + Lines(left) && AllFit(left, room)
    ensures |left| <= |pending| && (ok ==> |left| < |pending|)
  {
    assert Show(0);
    var lines := Lines(pending);
    if lines != [] {
      assert lines[0] in lines;
      assert forall x | x in lines[1..] :: x in lines;
    }
  }
}
