/** The four parsers of parse.c at work on a character stream with one character of pushback.
    Each is proved to do what the grammar in DataField says, errors and the text left unread
    included, on every stream on which it stops at all. */
module DataFieldParser {
  import opened CType
  import opened DataField
  import opened Buf
  import opened Wrappers

  /** us_getc and us_ungetc; None is EOF. */
  class Stream {
    const text: string
    var pos: nat

    ghost predicate Valid()
      reads this
    {
      pos <= |text|
    }

    ghost function Rest(): (r: string)
      reads this
      requires Valid()
    {
      text[pos..]
    }

    constructor (s: string)
      ensures Valid() && Rest() == s
    {
      text, pos := s, 0;
    }

    method Getc() returns (c: Option<char>)
      requires Valid()
      modifies this`pos
      ensures Valid() && Rest() == if old(Rest()) == "" then "" else old(Rest())[1..]
      ensures c == if old(Rest()) == "" then None else Some(old(Rest())[0])
      ensures c.Some? ==> pos == old(pos) + 1
    {
      if pos == |text| {
        return None;
      }
      c := Some(text[pos]);
      pos := pos + 1;
    }

    method Ungetc(c: Option<char>)
      requires Valid() && (c.Some? ==> pos > 0 && text[pos - 1] == c.value)
      modifies this`pos
      ensures Valid() && Rest() == if c.Some? then [c.value] + old(Rest()) else old(Rest())
    {
      if c.Some? {
        pos := pos - 1;
      }
    }

    method SkipDataSpace()
      requires Valid()
      modifies this`pos
      ensures Valid() && Rest() == SkipSpace(old(Rest()))
    {
      var c := Getc();
      while c.Some? && IsSpace(c.value)
        invariant Valid() && (c.Some? ==> pos > 0 && text[pos - 1] == c.value)
        invariant c.None? ==> Rest() == ""
        invariant SkipSpace((if c.Some? then [c.value] else "") + Rest()) == SkipSpace(old(Rest()))
        decreases c.Some?, |Rest()|
      {
        assert ([c.value] + Rest())[1..] == Rest();
        c := Getc();
      }
      Ungetc(c);
    }
  }

  /** The parser's answer and the text left are those of the grammar. */
  ghost predicate Reports<T>(r: Parse<T>, answer: Option<T>, rest: string) {
    match r
    case Parsed(v, left) => answer == Some(v) && rest == left
    case Failed(left) => answer == None && rest == left
    case Hangs => false
  }

  /** The digits of a number. */
  method ReadDigits(s: Stream, buf: Buffer)
    requires s.Valid() && buf.Valid()
    modifies s`pos, buf, buf.data
    ensures s.Valid() && buf.Valid()
    ensures var d := Digits(old(s.Rest()), old(buf.Contents())); buf.Contents() == d.0 && s.Rest() == d.1
  {
    ghost var start, acc := s.Rest(), buf.Contents();
    while true
      invariant s.Valid() && buf.Valid() && (buf.data == old(buf.data) || fresh(buf.data))
      invariant Digits(s.Rest(), buf.Contents()) == Digits(start, acc)
      decreases |s.Rest()|
    {
      var c := s.Getc();
      if !(c.Some? && IsDigit(c.value)) {
        s.Ungetc(c);
        break;
      }
      buf.Append(c.value);
    }
  }

  /** The characters between quotes; false if there is a NUL before the closing quote. The
      scalar parser means to remember in a flag that the last character was a backslash, but it
      overwrites the character before it sets the flag, which therefore stays unset: what it
      does is read over backslashes. */
  method ReadQuoted(s: Stream, buf: Buffer, escapes: bool) returns (ok: bool)
    requires s.Valid() && buf.Valid() && Quoted(s.Rest(), buf.Contents(), escapes) != Hangs
    modifies s`pos, buf, buf.data
    ensures s.Valid() && buf.Valid()
    ensures Reports(Quoted(old(s.Rest()), old(buf.Contents()), escapes),
                    if ok then Some(buf.Contents()) else None, s.Rest())
  {
    ghost var start, acc := s.Rest(), buf.Contents();
    while true
      invariant s.Valid() && buf.Valid() && (buf.data == old(buf.data) || fresh(buf.data))
      invariant Quoted(s.Rest(), buf.Contents(), escapes) == Quoted(start, acc, escapes)
      decreases |s.Rest()|
    {
      var c := s.Getc();
      if c.value == '"' {
        return true;
      }
      if c.value == '\0' {
        return false;
      }
      if !(c.value == '\\' && escapes) {
        buf.Append(c.value);
      }
    }
  }

  method ParseScalarField(s: Stream) returns (df: Option<Field>)
    requires s.Valid() && ParseScalar(s.Rest()) != Hangs
    modifies s`pos
    ensures s.Valid() && Reports(ParseScalar(old(s.Rest())), df, s.Rest())
  {
    var c := s.Getc();
    if c.None? || (c.value != '"' && !IsDigit(c.value)) {
      return None;
    }
    var buf := new Buffer();
    if IsDigit(c.value) {
      s.Ungetc(c);
      ReadDigits(s, buf);
    } else {
      var ok := ReadQuoted(s, buf, true);
      if !ok {
        return None;
      }
    }
    var text := buf.Get();
    s.SkipDataSpace();
    return Some(Scalar(text));
  }

  /** How a pass of the loop over the elements of an array or a map ends. */
  datatype Pass = More | End | Error

  /** One pass over the elements of an array: white space, then an item, a comma or the end. */
  method ReadItem(s: Stream, items: seq<Field>) returns (pass: Pass, next: seq<Field>)
    requires s.Valid() && ParseItems(s.Rest(), items) != Hangs
    modifies s`pos
    ensures s.Valid()
    ensures match pass
      case More => ParseItems(old(s.Rest()), items) == ParseItems(s.Rest(), next) && |s.Rest()| < old(|s.Rest()|)
      case End => next == items && ParseItems(old(s.Rest()), items) == Parsed(Array(items), SkipSpace(s.Rest()))
      case Error => ParseItems(old(s.Rest()), items) == Failed(s.Rest())
    decreases |s.Rest()|, 2
  {
    next := items;
    s.SkipDataSpace();
    var c := s.Getc();
    if c.None? {
      return Error, next;
    }
    if StartsField(c.value) {
      s.Ungetc(c);
      assert s.Rest() == SkipSpace(old(s.Rest()));
      var ch := ParseDataField(s);
      if ch.None? {
        return Error, next;
      }
      return More, items + [ch.value];
    }
    return if c.value == ']' then End else if c.value == ',' then More else Error, next;
  }

  /** A text that is to be an array, or a map. */
  function ParseArray(s: string): Parse<Field> {
    if s == "" then Failed("") else if s[0] != '[' then Failed(s[1..]) else ParseItems(s[1..], [])
  }

  function ParseMap(s: string): Parse<Field> {
    if s == "" then Failed("") else if s[0] != '{' then Failed(s[1..]) else ParseEntries(s[1..], [])
  }

  method ParseArrayField(s: Stream) returns (df: Option<Field>)
    requires s.Valid() && ParseArray(s.Rest()) != Hangs
    modifies s`pos
    ensures s.Valid() && Reports(ParseArray(old(s.Rest())), df, s.Rest())
    decreases |s.Rest()|, 0
  {
    var c := s.Getc();
    if c != Some('[') {
      return None;
    }
    ghost var start := s.Rest();
    var items, pass := [], More;
    while pass == More
      invariant s.Valid() && (pass == More ==> |s.Rest()| < old(|s.Rest()|))
      invariant match pass
        case More => ParseItems(start, []) == ParseItems(s.Rest(), items)
        case End => ParseItems(start, []) == Parsed(Array(items), SkipSpace(s.Rest()))
        case Error => ParseItems(start, []) == Failed(s.Rest())
      decreases pass == More, |s.Rest()|
    {
      pass, items := ReadItem(s, items);
    }
    if pass == Error {
      return None;
    }
    s.SkipDataSpace();
    return Some(Array(items));
  }

  /** One pass over the entries of a map: white space, then an entry with the comma or the end
      that follows it, or the end. */
  method ReadEntry(s: Stream, entries: seq<Entry>) returns (pass: Pass, next: seq<Entry>)
    requires s.Valid() && ParseEntries(s.Rest(), entries) != Hangs
    modifies s`pos
    ensures s.Valid()
    ensures match pass
      case More => ParseEntries(old(s.Rest()), entries) == ParseEntries(s.Rest(), next) && |s.Rest()| < old(|s.Rest()|)
      case End => ParseEntries(old(s.Rest()), entries) == Parsed(Map(next), SkipSpace(s.Rest()))
      case Error => ParseEntries(old(s.Rest()), entries) == Failed(s.Rest())
    decreases |s.Rest()|, 2
  {
    next := entries;
    s.SkipDataSpace();
    var c := s.Getc();
    if c == Some('"') {
      var ch := ParseMapEntry(s);
      if ch.None? {
        return Error, next;
      }
      next := entries + [ch.value];
      c := s.Getc();
      return if c == Some('}') then End else if c == Some(',') then More else Error, next;
    }
    return if c == Some('}') then End else Error, next;
  }

  method ParseMapField(s: Stream) returns (df: Option<Field>)
    requires s.Valid() && ParseMap(s.Rest()) != Hangs
    modifies s`pos
    ensures s.Valid() && Reports(ParseMap(old(s.Rest())), df, s.Rest())
    decreases |s.Rest()|, 0
  {
    var c := s.Getc();
    if c != Some('{') {
      return None;
    }
    ghost var start := s.Rest();
    var entries, pass := [], More;
    while pass == More
      invariant s.Valid() && (pass == More ==> |s.Rest()| < old(|s.Rest()|))
      invariant match pass
        case More => ParseEntries(start, []) == ParseEntries(s.Rest(), entries)
        case End => ParseEntries(start, []) == Parsed(Map(entries), SkipSpace(s.Rest()))
        case Error => ParseEntries(start, []) == Failed(s.Rest())
      decreases pass == More, |s.Rest()|
    {
      pass, entries := ReadEntry(s, entries);
    }
    if pass == Error {
      return None;
    }
    s.SkipDataSpace();
    return Some(Map(entries));
  }

  method ParseMapEntry(s: Stream) returns (e: Option<Entry>)
    requires s.Valid() && ParseEntry(s.Rest()) != Hangs
    modifies s`pos
    ensures s.Valid() && Reports(ParseEntry(old(s.Rest())), e, s.Rest())
    decreases |s.Rest()|, 0
  {
    var namebuf := new Buffer();
    var ok := ReadQuoted(s, namebuf, false);
    if !ok {
      return None;
    }
    var name := namebuf.Get();
    s.SkipDataSpace();
    var c := s.Getc();
    if c != Some(':') {
      return None;
    }
    var df := ParseDataField(s);
    if df.None? {
      return None;
    }
    s.SkipDataSpace();
    return Some(Entry(name, df.value));
  }

  method ParseDataField(s: Stream) returns (df: Option<Field>)
    requires s.Valid() && ParseField(s.Rest()) != Hangs
    modifies s`pos
    ensures s.Valid() && Reports(ParseField(old(s.Rest())), df, s.Rest())
    decreases |s.Rest()|, 1
  {
    s.SkipDataSpace();
    var c := s.Getc();
    if c.None? || !StartsField(c.value) {
      return None;
    }
    s.Ungetc(c);
    if c.value == '[' {
      df := ParseArrayField(s);
    } else if c.value == '{' {
      df := ParseMapField(s);
    } else {
      df := ParseScalarField(s);
    }
    s.SkipDataSpace();
  }
}
