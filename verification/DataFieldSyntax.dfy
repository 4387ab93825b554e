/** What texts the parsers of data fields accept (parse.c), and what they make of them: a text is read
    as a field exactly if it is that field written out, in any of the ways there are. Numbers may
    stand without quotes, commas between items may be missing or be doubled, and a map may end in a
    comma. */
module DataFieldSyntax {
  import opened CType
  import opened DataField
  import opened DataFieldRoundTrip
  import opened Sequences

  /** A field as it is written. */
  datatype Form =
    | Bare(digits: string)
    | InQuotes(body: string)
    | Listed(pieces: seq<Piece>)
    | Mapped(members: seq<Member>, gap: string)

  datatype Piece = Blank(c: char) | Comma | Item(form: Form)

  /** An entry with the white space before its name, behind it, before the value and behind it. */
  datatype Member =
    Member(lead: string, name: string, gap: string, before: string, form: Form, after: string, comma: bool)

  /** The form written out, with the text k behind it. */
  function Written(x: Form, k: string): string
    decreases x, 1
  {
    match x
    case Bare(digits) => digits + k
    case InQuotes(body) => "\"" + (body + ("\"" + k))
    case Listed(pieces) => "[" + WrittenPieces(pieces, "]" + k)
    case Mapped(members, gap) => "{" + WrittenMembers(members, gap, k)
  }

  function WrittenPieces(pieces: seq<Piece>, k: string): string
    decreases pieces, 0
  {
    if pieces == [] then k else WrittenPiece(pieces[0], WrittenPieces(pieces[1..], k))
  }

  function WrittenPiece(p: Piece, k: string): string
    decreases p, 0
  {
    match p
    case Blank(c) => [c] + k
    case Comma => "," + k
    case Item(x) => Written(x, k)
  }

  function WrittenMembers(members: seq<Member>, gap: string, k: string): string
    decreases members, 0
  {
    if members == [] then gap + ("}" + k)
    else
      WrittenMember(members[0], if members[0].comma then "," + WrittenMembers(members[1..], gap, k) else "}" + k)
  }

  function WrittenMember(m: Member, k: string): string
    decreases m, 1
  {
    m.lead + ("\"" + WrittenEntry(m, k))
  }

  function WrittenEntry(m: Member, k: string): string
    decreases m, 0
  {
    m.name + ("\"" + (m.gap + (":" + (m.before + Written(m.form, m.after + k)))))
  }

  predicate Blanks(s: string) {
    forall i | 0 <= i < |s| :: IsSpace(s[i])
  }

  predicate Numeric(s: string) {
    s != "" && forall i | 0 <= i < |s| :: IsDigit(s[i])
  }

  predicate NoDigit(k: string) {
    k == "" || !IsDigit(k[0])
  }

  /** This can be written before k: a number ends where its digits end, and quotes enclose no quote. */
  predicate Proper(x: Form, k: string)
    decreases x, 1
  {
    match x
    case Bare(digits) => Numeric(digits) && NoDigit(k)
    case InQuotes(body) => '"' !in body && '\0' !in body
    case Listed(pieces) => ProperPieces(pieces, "]" + k)
    case Mapped(members, gap) => Blanks(gap) && ProperMembers(members, gap, k)
  }

  predicate ProperPieces(pieces: seq<Piece>, k: string)
    decreases pieces, 0
  {
    pieces == [] || (ProperPieces(pieces[1..], k) && ProperPiece(pieces[0], WrittenPieces(pieces[1..], k)))
  }

  predicate ProperPiece(p: Piece, k: string)
    decreases p, 0
  {
    match p
    case Blank(c) => IsSpace(c)
    case Comma => true
    case Item(x) => Proper(x, k)
  }

  predicate ProperMembers(members: seq<Member>, gap: string, k: string)
    decreases members, 0
  {
    members == [] ||
    if members[0].comma then
      ProperMembers(members[1..], gap, k) && ProperMember(members[0], "," + WrittenMembers(members[1..], gap, k))
    else
      members[1..] == [] && ProperMember(members[0], "}" + k)
  }

  predicate ProperMember(m: Member, k: string)
    decreases m, 0
  {
    && Blanks(m.lead) && Blanks(m.gap) && Blanks(m.before) && Blanks(m.after)
    && '"' !in m.name && '\0' !in m.name && Proper(m.form, m.after + k)
  }

  // ---- what it means ----

  /** A scalar is read without its backslashes. */
  function Unescaped(s: string): string {
    if s == "" then "" else (if s[0] == '\\' then "" else [s[0]]) + Unescaped(s[1..])
  }

  function Meaning(x: Form): Field
    decreases x, 1
  {
    match x
    case Bare(digits) => Scalar(digits)
    case InQuotes(body) => Scalar(Unescaped(body))
    case Listed(pieces) => Array(Items(pieces))
    case Mapped(members, _) => Map(Entries(members))
  }

  function Items(pieces: seq<Piece>): seq<Field>
    decreases pieces, 0
  {
    if pieces == [] then [] else ItemOf(pieces[0]) + Items(pieces[1..])
  }

  function ItemOf(p: Piece): seq<Field>
    decreases p, 0
  {
    if p.Item? then [Meaning(p.form)] else []
  }

  function Entries(members: seq<Member>): seq<Entry>
    decreases members, 0
  {
    if members == [] then []
    else [Entry(members[0].name, Meaning(members[0].form))] + Entries(members[1..])
  }

  // ---- scalars ----

  lemma {:induction false} DigitsRead(d: string, k: string, acc: string)
    requires (d == "" || Numeric(d)) && NoDigit(k)
    ensures Digits(d + k, acc) == (acc + d, k)
    decreases |d|
  {
    if d == "" {
      assert d + k == k && acc + d == acc;
    } else {
      assert (d + k)[0] == d[0] && (d + k)[1..] == d[1..] + k;
      DigitsRead(d[1..], k, acc + [d[0]]);
      assert acc + [d[0]] + d[1..] == acc + d;
    }
  }

  lemma SkipNothing(s: string)
    requires s == "" || !IsSpace(s[0])
    ensures SkipSpace(s) == s
  {
  }

  lemma SkipTwice(s: string)
    ensures SkipSpace(SkipSpace(s)) == SkipSpace(s)
  {
    SkipNothing(SkipSpace(s));
  }

  /** A number is read as the string of its digits. */
  lemma NumberRead(d: string, k: string)
    requires Numeric(d) && NoDigit(k)
    ensures ParseField(d + k) == Parsed(Scalar(d), SkipSpace(k))
  {
    var s := d + k;
    assert s[0] == d[0] && IsDigit(d[0]);
    SkipNothing(s);
    DigitsRead(d, k, "");
    assert "" + d == d;
    SkipTwice(k);
  }

  lemma {:induction false} QuotedUnescaped(body: string, k: string, acc: string)
    requires '"' !in body && '\0' !in body
    ensures Quoted(body + ("\"" + k), acc, true) == Parsed(acc + Unescaped(body), k)
    decreases |body|
  {
    var t := body + ("\"" + k);
    if body == "" {
      assert t == "\"" + k && t[1..] == k && acc + Unescaped(body) == acc;
    } else {
      assert t[0] == body[0] && t[1..] == body[1..] + ("\"" + k);
      QuotedUnescaped(body[1..], k, if body[0] == '\\' then acc else acc + [body[0]]);
      if body[0] == '\\' {
        assert "" + Unescaped(body[1..]) == Unescaped(body[1..]);
      } else {
        assert acc + [body[0]] + Unescaped(body[1..]) == acc + ([body[0]] + Unescaped(body[1..]));
      }
    }
  }

  /** A text in quotes is read without its backslashes. */
  lemma TextRead(body: string, k: string)
    requires '"' !in body && '\0' !in body
    ensures ParseField("\"" + (body + ("\"" + k))) == Parsed(Scalar(Unescaped(body)), SkipSpace(k))
  {
    var t := body + ("\"" + k);
    var s := "\"" + t;
    SkipNothing(s);
    assert s[1..] == t;
    QuotedUnescaped(body, k, "");
    assert "" + Unescaped(body) == Unescaped(body);
    SkipTwice(k);
  }

  // ---- white space ----

  lemma ItemsSkip(s: string, acc: seq<Field>)
    ensures ParseItems(s, acc) == ParseItems(SkipSpace(s), acc)
  {
    SkipTwice(s);
  }

  lemma EntriesSkip(s: string, acc: seq<Entry>)
    ensures ParseEntries(s, acc) == ParseEntries(SkipSpace(s), acc)
  {
    SkipTwice(s);
  }

  lemma FieldSkip(s: string)
    ensures ParseField(s) == ParseField(SkipSpace(s))
  {
    SkipTwice(s);
  }

  lemma WrittenStarts(x: Form, k: string)
    requires Proper(x, k)
    ensures StartsWithField(Written(x, k)) && SkipSpace(Written(x, k)) == Written(x, k)
  {
    var s := Written(x, k);
    if x.Bare? {
      assert s[0] == x.digits[0] && IsDigit(x.digits[0]);
    }
    SkipNothing(s);
  }

  // ---- what is written is read ----

  lemma BlankFirst(c: char, t: string, acc: seq<Field>)
    requires IsSpace(c)
    ensures ParseItems([c] + t, acc) == ParseItems(t, acc)
  {
    SkipBlanks([c], t);
    ItemsSkip([c] + t, acc);
    ItemsSkip(t, acc);
  }

  lemma ItemWritten(x: Form, tail: string, acc: seq<Field>)
    requires Proper(x, tail) && ParseField(Written(x, tail)) == Parsed(Meaning(x), SkipSpace(tail))
    ensures ParseItems(Written(x, tail), acc) == ParseItems(tail, acc + [Meaning(x)])
  {
    WrittenStarts(x, tail);
    ItemFirst(Written(x, tail), Written(x, tail), acc);
    ItemsSkip(tail, acc + [Meaning(x)]);
  }

  /** A form that is written out is read as what it means. */
  lemma {:induction false} WrittenIsRead(x: Form, k: string)
    requires Proper(x, k)
    ensures ParseField(Written(x, k)) == Parsed(Meaning(x), SkipSpace(k))
    decreases x, 1
  {
    SkipTwice(k);
    match x {
      case Bare(digits) => NumberRead(digits, k);
      case InQuotes(body) => TextRead(body, k);
      case Listed(pieces) =>
        PiecesRead(pieces, k, []);
        assert [] + Items(pieces) == Items(pieces);
        ArrayBody(WrittenPieces(pieces, "]" + k));
      case Mapped(members, gap) =>
        MembersRead(members, gap, k, []);
        assert [] + Entries(members) == Entries(members);
        MapBody(WrittenMembers(members, gap, k));
    }
  }

  lemma ListEnds(k: string, acc: seq<Field>)
    ensures ParseItems("]" + k, acc) == Parsed(Array(acc), SkipSpace(k))
  {
    var s := "]" + k;
    SkipNothing(s);
    assert s[1..] == k;
  }

  lemma {:induction false} PiecesRead(pieces: seq<Piece>, k: string, acc: seq<Field>)
    requires ProperPieces(pieces, "]" + k)
    ensures ParseItems(WrittenPieces(pieces, "]" + k), acc) == Parsed(Array(acc + Items(pieces)), SkipSpace(k))
    decreases pieces, 0
  {
    if pieces == [] {
      assert acc + Items(pieces) == acc;
      ListEnds(k, acc);
    } else {
      PieceRead(pieces[0], WrittenPieces(pieces[1..], "]" + k), acc);
      PiecesRead(pieces[1..], k, acc + ItemOf(pieces[0]));
      assert acc + ItemOf(pieces[0]) + Items(pieces[1..]) == acc + Items(pieces);
    }
  }

  lemma {:induction false} PieceRead(p: Piece, rest: string, acc: seq<Field>)
    requires ProperPiece(p, rest)
    ensures ParseItems(WrittenPiece(p, rest), acc) == ParseItems(rest, acc + ItemOf(p))
    decreases p, 0
  {
    match p {
      case Blank(c) =>
        BlankFirst(c, rest, acc);
        assert acc + [] == acc;
      case Comma =>
        CommaFirst(rest, acc);
        assert acc + [] == acc;
      case Item(x) =>
        WrittenIsRead(x, rest);
        ItemWritten(x, rest, acc);
    }
  }

  lemma MapBody(body: string)
    ensures ParseField("{" + body) == AfterList(ParseEntries(body, []))
  {
    var s := "{" + body;
    SkipNothing(s);
    assert s[1..] == body;
  }

  lemma MapCloses(gap: string, k: string, acc: seq<Entry>)
    requires Blanks(gap)
    ensures ParseEntries(gap + ("}" + k), acc) == Parsed(Map(acc), SkipSpace(k))
  {
    var s := "}" + k;
    SkipBlanks(gap, s);
    SkipNothing(s);
    assert s[1..] == k;
  }

  lemma NameFirst(lead: string, y: string, acc: seq<Entry>)
    requires Blanks(lead)
    ensures ParseEntries(lead + ("\"" + y), acc) == AfterEntry(ParseEntry(y), acc)
  {
    var s := "\"" + y;
    SkipBlanks(lead, s);
    SkipNothing(s);
    assert s[1..] == y;
  }

  lemma ColonFirst(name: string, gap: string, v: string)
    requires '"' !in name && '\0' !in name && Blanks(gap)
    ensures ParseEntry(name + ("\"" + (gap + (":" + v)))) == AfterValue(name, ParseField(v))
  {
    var k := gap + (":" + v);
    ParseEntryIs(name + ("\"" + k));
    QuotedPlain(name, k, "", false);
    assert "" + name == name;
    SkipBlanks(gap, ":" + v);
    SkipNothing(":" + v);
    assert (":" + v)[1..] == v;
  }

  /** An entry is read up to what follows its value. */
  lemma MemberWritten(m: Member, k: string, acc: seq<Entry>)
    requires ProperMember(m, k) && (k == "" || !IsSpace(k[0]))
    requires ParseField(Written(m.form, m.after + k)) == Parsed(Meaning(m.form), SkipSpace(m.after + k))
    ensures ParseEntries(WrittenMember(m, k), acc) == AfterEntry(Parsed(Entry(m.name, Meaning(m.form)), k), acc)
  {
    var value := Written(m.form, m.after + k);
    var v := m.before + value;
    NameFirst(m.lead, m.name + ("\"" + (m.gap + (":" + v))), acc);
    ColonFirst(m.name, m.gap, v);
    SkipBlanks(m.before, value);
    FieldSkip(v);
    FieldSkip(value);
    SkipBlanks(m.after, k);
    SkipNothing(k);
  }

  lemma AfterMember(e: Entry, t: string, acc: seq<Entry>)
    ensures AfterEntry(Parsed(e, "," + t), acc) == ParseEntries(t, acc + [e])
    ensures AfterEntry(Parsed(e, "}" + t), acc) == Parsed(Map(acc + [e]), SkipSpace(t))
  {
    assert ("," + t)[1..] == t && ("}" + t)[1..] == t;
  }

  lemma {:induction false} MembersRead(members: seq<Member>, gap: string, k: string, acc: seq<Entry>)
    requires Blanks(gap) && ProperMembers(members, gap, k)
    ensures ParseEntries(WrittenMembers(members, gap, k), acc) == Parsed(Map(acc + Entries(members)), SkipSpace(k))
    decreases members, 0
  {
    if members == [] {
      assert acc + Entries(members) == acc;
      MapCloses(gap, k, acc);
    } else {
      var m, more := members[0], members[1..];
      var e := [Entry(m.name, Meaning(m.form))];
      Assoc(acc, e, Entries(more));
      if m.comma {
        MembersRead(more, gap, k, acc + e);
        MemberRead(m, WrittenMembers(more, gap, k), acc);
      } else {
        assert acc + e + Entries(more) == acc + e;
        MemberRead(m, k, acc);
      }
    }
  }

  lemma {:induction false} MemberRead(m: Member, t: string, acc: seq<Entry>)
    requires ProperMember(m, if m.comma then "," + t else "}" + t)
    ensures ParseEntries(WrittenMember(m, if m.comma then "," + t else "}" + t), acc)
         == var r := acc + [Entry(m.name, Meaning(m.form))];
            if m.comma then ParseEntries(t, r) else Parsed(Map(r), SkipSpace(t))
    decreases m, 0
  {
    var end := if m.comma then "," + t else "}" + t;
    WrittenIsRead(m.form, m.after + end);
    MemberWritten(m, end, acc);
    AfterMember(Entry(m.name, Meaning(m.form)), t, acc);
  }

  // ---- what is read was written ----

  /** White space in front, and the rest. */
  lemma {:induction false} SpaceSplit(s: string) returns (blanks: string)
    ensures Blanks(blanks) && s == blanks + SkipSpace(s)
    decreases |s|
  {
    if s != "" && IsSpace(s[0]) {
      var b := SpaceSplit(s[1..]);
      blanks := [s[0]] + b;
    } else {
      blanks := "";
    }
  }

  lemma {:induction false} DigitsWritten(s: string, acc: string) returns (d: string)
    ensures s == d + Digits(s, acc).1 && Digits(s, acc).0 == acc + d && NoDigit(Digits(s, acc).1)
    ensures forall i | 0 <= i < |d| :: IsDigit(d[i])
    decreases |s|
  {
    if s != "" && IsDigit(s[0]) {
      d := DigitsWritten(s[1..], acc + [s[0]]);
      d := [s[0]] + d;
    } else {
      d := "";
    }
  }

  /** What a quoted text makes of its characters. */
  function Kept(body: string, escapes: bool): string {
    if escapes then Unescaped(body) else body
  }

  lemma KeptFirst(c: char, body: string, escapes: bool, acc: string)
    ensures acc + Kept([c] + body, escapes)
         == (if c == '\\' && escapes then acc else acc + [c]) + Kept(body, escapes)
  {
    assert ([c] + body)[1..] == body;
    if c == '\\' && escapes {
      assert "" + Unescaped(body) == Unescaped(body);
    } else {
      Assoc(acc, [c], Kept(body, escapes));
    }
  }

  lemma QuotedFirst(c: char, s: string, acc: string, escapes: bool)
    requires c != '"' && c != '\0'
    ensures Quoted([c] + s, acc, escapes) == Quoted(s, if c == '\\' && escapes then acc else acc + [c], escapes)
  {
    assert ([c] + s)[1..] == s;
  }

  lemma {:induction false} QuotedWritten(s: string, acc: string, escapes: bool) returns (body: string)
    requires Quoted(s, acc, escapes).Parsed?
    ensures s == body + ("\"" + Quoted(s, acc, escapes).rest) && '"' !in body && '\0' !in body
    ensures Quoted(s, acc, escapes).value == acc + Kept(body, escapes)
    decreases |s|
  {
    var c, more := s[0], s[1..];
    if c == '"' {
      body := "";
      assert s == "" + ("\"" + more);
      assert acc + Kept("", escapes) == acc;
    } else {
      assert s == [c] + more;
      QuotedFirst(c, more, acc, escapes);
      body := QuotedWritten(more, if c == '\\' && escapes then acc else acc + [c], escapes);
      KeptFirst(c, body, escapes, acc);
      Assoc([c], body, "\"" + Quoted(s, acc, escapes).rest);
      body := [c] + body;
    }
  }

  lemma ScalarWritten(s: string) returns (x: Form, k: string)
    requires s != "" && !IsSpace(s[0]) && ParseScalar(s).Parsed?
    ensures Proper(x, k) && s == Written(x, k) && ParseScalar(s) == Parsed(Meaning(x), SkipSpace(k)) && |k| < |s|
  {
    if IsDigit(s[0]) {
      var d := DigitsWritten(s, "");
      x, k := Bare(d), Digits(s, "").1;
      assert "" + d == d;
      assert |k| < |s|;
    } else {
      var body := QuotedWritten(s[1..], "", true);
      x, k := InQuotes(body), Quoted(s[1..], "", true).rest;
      assert s == "\"" + s[1..];
      assert "" + Unescaped(body) == Unescaped(body);
    }
  }

  /** Whatever is read as a field is that field written out, behind white space. */
  lemma {:induction false} ReadIsWritten(s: string) returns (x: Form, k: string)
    requires ParseField(s).Parsed?
    ensures Proper(x, k) && SkipSpace(s) == Written(x, k)
    ensures ParseField(s) == Parsed(Meaning(x), SkipSpace(k)) && |k| < |s|
    decreases |s|, 0
  {
    var t := SkipSpace(s);
    var body := t[1..];
    assert t == [t[0]] + body;
    if t[0] == '[' {
      var pieces;
      pieces, k := ItemsWritten(body, []);
      x := Listed(pieces);
      assert [] + Items(pieces) == Items(pieces);
      SkipTwice(k);
    } else if t[0] == '{' {
      var members, gap;
      members, gap, k := EntriesWritten(body, []);
      x := Mapped(members, gap);
      assert [] + Entries(members) == Entries(members);
      SkipTwice(k);
    } else {
      x, k := ScalarWritten(t);
      SkipTwice(k);
    }
  }

  lemma {:induction false} ItemsWritten(s: string, acc: seq<Field>) returns (pieces: seq<Piece>, k: string)
    requires ParseItems(s, acc).Parsed?
    ensures ProperPieces(pieces, "]" + k) && s == WrittenPieces(pieces, "]" + k) && |k| < |s|
    ensures ParseItems(s, acc) == Parsed(Array(acc + Items(pieces)), SkipSpace(k))
    decreases |s|, 2
  {
    if s[0] == ']' {
      pieces, k := [], s[1..];
      assert acc + [] == acc;
      SkipNothing(s);
    } else {
      var p, rest := PieceWritten(s, acc);
      var more;
      more, k := ItemsWritten(rest, acc + ItemOf(p));
      pieces := [p] + more;
      assert pieces[1..] == more;
      assert acc + ItemOf(p) + Items(more) == acc + Items(pieces);
    }
  }

  lemma {:induction false} PieceWritten(s: string, acc: seq<Field>) returns (p: Piece, rest: string)
    requires ParseItems(s, acc).Parsed? && s[0] != ']'
    ensures ProperPiece(p, rest) && s == WrittenPiece(p, rest) && |rest| < |s|
    ensures ParseItems(s, acc) == ParseItems(rest, acc + ItemOf(p))
    decreases |s|, 1
  {
    rest := s[1..];
    assert s == [s[0]] + rest;
    if IsSpace(s[0]) {
      p := Blank(s[0]);
      BlankFirst(s[0], rest, acc);
      assert acc + [] == acc;
    } else if s[0] == ',' {
      p := Comma;
      CommaFirst(rest, acc);
      assert acc + [] == acc;
    } else {
      SkipNothing(s);
      var x;
      x, rest := ReadIsWritten(s);
      p := Item(x);
      ItemWritten(x, rest, acc);
    }
  }

  lemma {:induction false} EntryWritten(s: string, lead: string, comma: bool) returns (m: Member, rest: string)
    requires ParseEntry(s).Parsed? && Blanks(lead)
    ensures ProperMember(m, rest) && s == WrittenEntry(m, rest) && (rest == "" || !IsSpace(rest[0])) && |rest| < |s|
    ensures ParseEntry(s) == Parsed(Entry(m.name, Meaning(m.form)), rest) && m.lead == lead && m.comma == comma
    decreases |s|, 0
  {
    ParseEntryIs(s);
    var name := QuotedWritten(s, "", false);
    assert "" + name == name;
    var t := Quoted(s, "", false).rest;
    var gap := SpaceSplit(t);
    var v := SkipSpace(t)[1..];
    assert SkipSpace(t) == ":" + v;
    var before := SpaceSplit(v);
    var x, k := ReadIsWritten(v);
    var after := SpaceSplit(k);
    rest := SkipSpace(k);
    SkipTwice(k);
    m := Member(lead, name, gap, before, x, after, comma);
  }

  /** The first entry of a map, with what ends it. */
  lemma {:induction false} MemberFirst(s: string, acc: seq<Entry>) returns (m: Member, t: string)
    requires ParseEntries(s, acc).Parsed? && SkipSpace(s)[0] != '}'
    ensures var end := if m.comma then "," + t else "}" + t;
            ProperMember(m, end) && s == WrittenMember(m, end) && |t| < |s|
    ensures ParseEntries(s, acc)
         == var r := acc + [Entry(m.name, Meaning(m.form))];
            if m.comma then ParseEntries(t, r) else Parsed(Map(r), SkipSpace(t))
    decreases |s|, 0
  {
    var gap := SpaceSplit(s);
    var y := SkipSpace(s)[1..];
    assert SkipSpace(s) == "\"" + y;
    NameFirst(gap, y, acc);
    var rest;
    m, rest := EntryWritten(y, gap, ParseEntry(y).rest[0] == ',');
    t := rest[1..];
    assert rest == [rest[0]] + t;
    AfterMember(Entry(m.name, Meaning(m.form)), t, acc);
  }

  lemma {:induction false} EntriesWritten(s: string, acc: seq<Entry>)
      returns (members: seq<Member>, gap: string, k: string)
    requires ParseEntries(s, acc).Parsed?
    ensures Blanks(gap) && ProperMembers(members, gap, k) && s == WrittenMembers(members, gap, k) && |k| < |s|
    ensures ParseEntries(s, acc) == Parsed(Map(acc + Entries(members)), SkipSpace(k))
    decreases |s|, 1
  {
    if SkipSpace(s)[0] == '}' {
      gap := SpaceSplit(s);
      members, k := [], SkipSpace(s)[1..];
      assert SkipSpace(s) == "}" + k;
      MapCloses(gap, k, acc);
      assert acc + Entries([]) == acc;
    } else {
      var m;
      m, k := MemberFirst(s, acc);
      var e, more := [Entry(m.name, Meaning(m.form))], [];
      gap := "";
      if m.comma {
        more, gap, k := EntriesWritten(k, acc + e);
      }
      members := [m] + more;
      assert members[1..] == more;
      Assoc(acc, e, Entries(more));
      assert acc + e + Entries([]) == acc + e;
    }
  }

  /** A text is read as a field exactly if it is one that is written out, behind white space. */
  lemma ReadIffWritten(s: string, f: Field, rest: string)
    ensures ParseField(s) == Parsed(f, rest) <==>
            exists x, k :: Proper(x, k) && SkipSpace(s) == Written(x, k) && Meaning(x) == f && SkipSpace(k) == rest
  {
    FieldSkip(s);
    if ParseField(s) == Parsed(f, rest) {
      var x, k := ReadIsWritten(s);
    }
    forall x, k | Proper(x, k) && SkipSpace(s) == Written(x, k)
      ensures ParseField(s) == Parsed(Meaning(x), SkipSpace(k))
    {
      WrittenIsRead(x, k);
    }
  }
}
