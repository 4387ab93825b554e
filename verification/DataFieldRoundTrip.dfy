/** Parsing undoes printing (parse.c): exactly the trees without quotes in their strings and
    without backslashes in their scalars are read back, whatever the indentation and whatever
    text follows. */
module DataFieldRoundTrip {
  import opened CType
  import opened DataField
  import opened Sequences
  import opened Shut

  /** Every string can be a C string. */
  predicate CStrings(f: Field) {
    match f
    case Scalar(text) => '\0' !in text
    case Array(items) => forall i | 0 <= i < |items| :: CStrings(items[i])
    case Map(entries) => forall i | 0 <= i < |entries| :: CStringsEntry(entries[i])
  }

  predicate CStringsEntry(e: Entry) {
    '\0' !in e.name && CStrings(e.value)
  }

  /** No '"' in any string, and no '\' in a scalar. */
  predicate Plain(f: Field) {
    match f
    case Scalar(text) => '"' !in text && '\\' !in text
    case Array(items) => forall i | 0 <= i < |items| :: Plain(items[i])
    case Map(entries) => forall i | 0 <= i < |entries| :: PlainEntry(entries[i])
  }

  predicate PlainEntry(e: Entry) {
    '"' !in e.name && Plain(e.value)
  }

  // ---- strings ----

  lemma {:induction false} QuotedPlain(s: string, k: string, acc: string, escapes: bool)
    requires '"' !in s && '\0' !in s && (escapes ==> '\\' !in s)
    ensures Quoted(s + ("\"" + k), acc, escapes) == Parsed(acc + s, k)
  {
    var t := s + ("\"" + k);
    if s == "" {
      assert t == "\"" + k && t[1..] == k && acc + s == acc;
    } else {
      assert t[0] == s[0] && t[1..] == s[1..] + ("\"" + k);
      QuotedPlain(s[1..], k, acc + [s[0]], escapes);
      assert acc + [s[0]] + s[1..] == acc + s;
    }
  }

  /** A quote or an escape inside a string makes it come back shorter. */
  lemma {:induction false} QuotedShort(s: string, k: string, acc: string, escapes: bool)
    requires '\0' !in s
    ensures var r := Quoted(s + ("\"" + k), acc, escapes);
            r.Parsed? && |r.value| <= |acc| + |s|
            && ('"' in s || (escapes && '\\' in s) ==> |r.value| < |acc| + |s|)
  {
    var t := s + ("\"" + k);
    if s == "" {
      assert t == "\"" + k;
    } else {
      assert t[0] == s[0] && t[1..] == s[1..] + ("\"" + k);
      QuotedShort(s[1..], k, acc, escapes);
      QuotedShort(s[1..], k, acc + [s[0]], escapes);
    }
  }

  /** White space put in front changes nothing. */
  lemma {:induction false} SkipBlanks(blanks: string, s: string)
    requires forall i | 0 <= i < |blanks| :: IsSpace(blanks[i])
    ensures SkipSpace(blanks + s) == SkipSpace(s)
  {
    if blanks == "" {
      assert blanks + s == s;
    } else {
      assert (blanks + s)[1..] == blanks[1..] + s;
      SkipBlanks(blanks[1..], s);
    }
  }

  lemma SkipIndent(lvl: int, s: string)
    ensures SkipSpace(Indent(lvl) + s) == SkipSpace(s)
  {
    SkipBlanks(Indent(lvl), s);
  }

  // ---- printed text with the text that follows it ----

  function PrintK(f: Field, lvl: int, k: string): string
    decreases f, 1
  {
    match f
    case Scalar(text) => "\"" + (text + ("\"" + k))
    case Array(items) => "[" + PrintItemsK(items, true, lvl, "]" + k)
    case Map(entries) => "{" + PrintEntriesK(entries, true, lvl, "}" + k)
  }

  function PrintItemsK(items: seq<Field>, first: bool, lvl: int, k: string): string
    decreases items, 0
  {
    if items == [] then k
    else Comma(first) + (Indent(lvl) + PrintK(items[0], lvl + 1, PrintItemsK(items[1..], false, lvl, k)))
  }

  function PrintEntriesK(entries: seq<Entry>, first: bool, lvl: int, k: string): string
    decreases entries, 0
  {
    if entries == [] then k
    else Comma(first) + (Indent(lvl) + PrintEntryK(entries[0], lvl, PrintEntriesK(entries[1..], false, lvl, k)))
  }

  function PrintEntryK(e: Entry, lvl: int, k: string): string
    decreases e, 0
  {
    "\"" + (e.name + ("\"" + (":" + PrintK(e.value, lvl + 1, k))))
  }

  lemma {:induction false} PrintThen(f: Field, lvl: int, k: string)
    ensures Print(f, lvl) + k == PrintK(f, lvl, k)
    decreases f, 1
  {
    match f {
      case Scalar(text) =>
        Assoc("\"", text + "\"", k);
        Assoc(text, "\"", k);
      case Array(items) =>
        Assoc("[", PrintItems(items, true, lvl) + "]", k);
        Assoc(PrintItems(items, true, lvl), "]", k);
        PrintItemsThen(items, true, lvl, "]" + k);
      case Map(entries) =>
        Assoc("{", PrintEntries(entries, true, lvl) + "}", k);
        Assoc(PrintEntries(entries, true, lvl), "}", k);
        PrintEntriesThen(entries, true, lvl, "}" + k);
    }
  }

  lemma {:induction false} PrintItemsThen(items: seq<Field>, first: bool, lvl: int, k: string)
    ensures PrintItems(items, first, lvl) + k == PrintItemsK(items, first, lvl, k)
    decreases items, 0
  {
    if items == [] {
      assert "" + k == k;
    } else {
      var x, r := Print(items[0], lvl + 1), PrintItems(items[1..], false, lvl);
      Assoc(Comma(first), Indent(lvl) + (x + r), k);
      Assoc(Indent(lvl), x + r, k);
      Assoc(x, r, k);
      PrintItemsThen(items[1..], false, lvl, k);
      PrintThen(items[0], lvl + 1, PrintItemsK(items[1..], false, lvl, k));
    }
  }

  lemma {:induction false} PrintEntriesThen(entries: seq<Entry>, first: bool, lvl: int, k: string)
    ensures PrintEntries(entries, first, lvl) + k == PrintEntriesK(entries, first, lvl, k)
    decreases entries, 0
  {
    if entries == [] {
      assert "" + k == k;
    } else {
      var x, r := PrintEntry(entries[0], lvl), PrintEntries(entries[1..], false, lvl);
      Assoc(Comma(first), Indent(lvl) + (x + r), k);
      Assoc(Indent(lvl), x + r, k);
      Assoc(x, r, k);
      PrintEntriesThen(entries[1..], false, lvl, k);
      PrintEntryThen(entries[0], lvl, PrintEntriesK(entries[1..], false, lvl, k));
    }
  }

  lemma {:induction false} PrintEntryThen(e: Entry, lvl: int, k: string)
    ensures PrintEntry(e, lvl) + k == PrintEntryK(e, lvl, k)
    decreases e, 0
  {
    var x := Print(e.value, lvl + 1);
    assert "\":" + x == "\"" + (":" + x);
    Assoc("\"", e.name + ("\"" + (":" + x)), k);
    Assoc(e.name, "\"" + (":" + x), k);
    Assoc("\"", ":" + x, k);
    Assoc(":", x, k);
    PrintThen(e.value, lvl + 1, k);
  }

  predicate StartsWithField(s: string) {
    s != "" && StartsField(s[0])
  }

  lemma PrintStarts(f: Field, lvl: int, k: string)
    ensures StartsWithField(PrintK(f, lvl, k))
  {
  }

  // ---- what the parsers read ----

  /** s reads as f, leaving rest. */
  ghost predicate FieldReads(s: string, f: Field, rest: string) {
    forall n: nat {:trigger Show(n)} :: Show(n) ==> ParseField(s) == Parsed(f, rest)
  }

  /** s does not read as f, whatever is left. */
  ghost predicate FieldRefuses(s: string, f: Field) {
    forall n: nat {:trigger Show(n)} :: Show(n) ==> !(ParseField(s).Parsed? && ParseField(s).value == f)
  }

  /** The rest s of an array that began with acc reads as r in all. */
  ghost predicate ItemsRead(s: string, acc: seq<Field>, r: seq<Field>, rest: string) {
    forall n: nat {:trigger Show(n)} :: Show(n) ==> ParseItems(s, acc) == Parsed(Array(r), rest)
  }

  ghost predicate ItemsRefuse(s: string, acc: seq<Field>, r: seq<Field>) {
    forall n: nat {:trigger Show(n)} :: Show(n) ==>
      !(ParseItems(s, acc).Parsed? && ParseItems(s, acc).value == Array(r))
  }

  ghost predicate EntriesRead(s: string, acc: seq<Entry>, r: seq<Entry>, rest: string) {
    forall n: nat {:trigger Show(n)} :: Show(n) ==> ParseEntries(s, acc) == Parsed(Map(r), rest)
  }

  ghost predicate EntriesRefuse(s: string, acc: seq<Entry>, r: seq<Entry>) {
    forall n: nat {:trigger Show(n)} :: Show(n) ==>
      !(ParseEntries(s, acc).Parsed? && ParseEntries(s, acc).value == Map(r))
  }

  // what the callers of each parser make of its result

  function AfterList(r: Parse<Field>): Parse<Field> {
    match r
    case Parsed(f, rest) => Parsed(f, SkipSpace(rest))
    case Failed(rest) => Failed(SkipSpace(rest))
    case Hangs => Hangs
  }

  function AfterItem(r: Parse<Field>, acc: seq<Field>): Parse<Field> {
    match r
    case Parsed(f, rest) => ParseItems(rest, acc + [f])
    case Failed(rest) => Failed(rest)
    case Hangs => Hangs
  }

  function AfterValue(name: string, r: Parse<Field>): Parse<Entry> {
    match r
    case Parsed(f, rest) => Parsed(Entry(name, f), SkipSpace(rest))
    case Failed(rest) => Failed(rest)
    case Hangs => Hangs
  }

  function AfterName(r: Parse<string>): Parse<Entry> {
    match r
    case Failed(rest) => Failed(rest)
    case Hangs => Hangs
    case Parsed(name, rest) =>
      var t := SkipSpace(rest);
      if t == "" then Failed("")
      else if t[0] != ':' then Failed(t[1..])
      else AfterValue(name, ParseField(t[1..]))
  }

  function AfterEntry(r: Parse<Entry>, acc: seq<Entry>): Parse<Field> {
    match r
    case Failed(rest) => Failed(rest)
    case Hangs => Hangs
    case Parsed(e, rest) =>
      if rest == "" then Failed("")
      else if rest[0] == '}' then Parsed(Map(acc + [e]), SkipSpace(rest[1..]))
      else if rest[0] == ',' then ParseEntries(rest[1..], acc + [e])
      else Failed(rest[1..])
  }

  // scalars

  lemma ScalarReads(text: string, k: string)
    requires '\0' !in text
    ensures var s := "\"" + (text + ("\"" + k));
            if '"' in text || '\\' in text then FieldRefuses(s, Scalar(text))
            else FieldReads(s, Scalar(text), SkipSpace(k))
  {
    var body := text + ("\"" + k);
    var s := "\"" + body;
    assert SkipSpace(s) == s && s[1..] == body;
    QuotedShort(text, k, "", true);
    if '"' !in text && '\\' !in text {
      QuotedPlain(text, k, "", true);
      assert "" + text == text;
    }
  }

  // arrays

  lemma ArrayBody(body: string)
    ensures ParseField("[" + body) == AfterList(ParseItems(body, []))
  {
    var s := "[" + body;
    assert SkipSpace(s) == s && s[1..] == body;
  }

  lemma ArrayReads(body: string, items: seq<Field>, rest: string)
    ensures ItemsRead(body, [], items, rest) ==> FieldReads("[" + body, Array(items), SkipSpace(rest))
    ensures ItemsRefuse(body, [], items) ==> FieldRefuses("[" + body, Array(items))
  {
    assert Show(0);
    ArrayBody(body);
  }

  lemma ArrayEnds(k: string, acc: seq<Field>)
    ensures ItemsRead("]" + k, acc, acc, SkipSpace(k))
  {
    var s := "]" + k;
    assert SkipSpace(s) == s && s[1..] == k;
  }

  lemma ItemFirst(t: string, x: string, acc: seq<Field>)
    requires SkipSpace(t) == x && StartsWithField(x)
    ensures ParseItems(t, acc) == AfterItem(ParseField(x), acc)
  {
  }

  lemma CommaFirst(t: string, acc: seq<Field>)
    ensures ParseItems("," + t, acc) == ParseItems(t, acc)
  {
    var u := "," + t;
    assert SkipSpace(u) == u && u[1..] == t;
  }

  /** The array parser gets to an item over a comma and white space. */
  lemma ItemText(first: bool, lvl: int, x: string, acc: seq<Field>)
    requires StartsWithField(x)
    ensures ParseItems(Comma(first) + (Indent(lvl) + x), acc) == AfterItem(ParseField(x), acc)
  {
    var t := Indent(lvl) + x;
    SkipIndent(lvl, x);
    ItemFirst(t, x, acc);
    if first {
      assert Comma(first) + t == t;
    } else {
      CommaFirst(t, acc);
    }
  }

  lemma ItemReads(first: bool, lvl: int, x: string, f: Field, tail: string, acc: seq<Field>, r: seq<Field>,
                  rest: string)
    requires StartsWithField(x) && FieldReads(x, f, tail)
    ensures var s := Comma(first) + (Indent(lvl) + x);
            && (ItemsRead(tail, acc + [f], r, rest) ==> ItemsRead(s, acc, r, rest))
            && (ItemsRefuse(tail, acc + [f], r) ==> ItemsRefuse(s, acc, r))
  {
    assert Show(0);
    ItemText(first, lvl, x, acc);
  }

  /** The array parser never takes back what it has read. */
  lemma {:induction false} ItemsExtend(s: string, acc: seq<Field>)
    ensures var r := ParseItems(s, acc); r.Parsed? ==> r.value.Array? && acc <= r.value.items
    decreases |s|
  {
    var t := SkipSpace(s);
    if t != "" && StartsField(t[0]) {
      var p := ParseField(t);
      if p.Parsed? {
        ItemsExtend(p.rest, acc + [p.value]);
      }
    } else if t != "" && t[0] == ',' {
      ItemsExtend(t[1..], acc);
    }
  }

  lemma ItemRefused(first: bool, lvl: int, x: string, f: Field, acc: seq<Field>, r: seq<Field>)
    requires StartsWithField(x) && FieldRefuses(x, f) && acc + [f] <= r
    ensures ItemsRefuse(Comma(first) + (Indent(lvl) + x), acc, r)
  {
    assert Show(0);
    ItemText(first, lvl, x, acc);
    var p := ParseField(x);
    if p.Parsed? {
      ItemsExtend(p.rest, acc + [p.value]);
      assert r[|acc|] == f;
    }
  }

  // maps

  lemma MapReads(body: string, entries: seq<Entry>, rest: string)
    ensures EntriesRead(body, [], entries, rest) ==> FieldReads("{" + body, Map(entries), SkipSpace(rest))
    ensures EntriesRefuse(body, [], entries) ==> FieldRefuses("{" + body, Map(entries))
  {
    assert Show(0);
    var s := "{" + body;
    assert SkipSpace(s) == s && s[1..] == body;
  }

  lemma MapEnds(k: string, acc: seq<Entry>)
    ensures EntriesRead("}" + k, acc, acc, SkipSpace(k))
  {
    var s := "}" + k;
    assert SkipSpace(s) == s && s[1..] == k;
  }

  /** The map parser gets to an entry over white space. */
  lemma EntryText(lvl: int, y: string, acc: seq<Entry>)
    ensures ParseEntries(Indent(lvl) + ("\"" + y), acc) == AfterEntry(ParseEntry(y), acc)
  {
    var q := "\"" + y;
    SkipIndent(lvl, q);
    assert SkipSpace(q) == q && q[1..] == y;
  }

  lemma ParseEntryIs(s: string)
    ensures ParseEntry(s) == AfterName(Quoted(s, "", false))
  {
  }

  /** After an entry's name come the colon and the value. */
  lemma EntryValue(name: string, v: string)
    requires '"' !in name && '\0' !in name
    ensures ParseEntry(name + ("\"" + (":" + v))) == AfterValue(name, ParseField(v))
  {
    var k := ":" + v;
    ParseEntryIs(name + ("\"" + k));
    QuotedPlain(name, k, "", false);
    assert "" + name == name;
    assert SkipSpace(k) == k && k[1..] == v;
  }

  /** A name with a quote in it does not come back. */
  lemma EntryNameRefused(name: string, v: string)
    requires '"' in name && '\0' !in name
    ensures var p := ParseEntry(name + ("\"" + (":" + v))); p.Parsed? ==> p.value.name != name
  {
    var k := ":" + v;
    ParseEntryIs(name + ("\"" + k));
    QuotedShort(name, k, "", false);
  }

  function EntryTextK(lvl: int, name: string, v: string): string {
    Indent(lvl) + ("\"" + (name + ("\"" + (":" + v))))
  }

  lemma LastEntryReads(lvl: int, name: string, v: string, f: Field, k: string, acc: seq<Entry>)
    requires '"' !in name && '\0' !in name && FieldReads(v, f, "}" + k)
    ensures EntriesRead(EntryTextK(lvl, name, v), acc, acc + [Entry(name, f)], SkipSpace(k))
  {
    assert Show(0);
    EntryText(lvl, name + ("\"" + (":" + v)), acc);
    EntryValue(name, v);
    var t := "}" + k;
    assert SkipSpace(t) == t && t[0] == '}' && t[1..] == k;
  }

  lemma EntryReads(lvl: int, name: string, v: string, f: Field, more: string, acc: seq<Entry>, r: seq<Entry>,
                   rest: string)
    requires '"' !in name && '\0' !in name && FieldReads(v, f, "," + more)
    ensures EntriesRead(more, acc + [Entry(name, f)], r, rest) ==> EntriesRead(EntryTextK(lvl, name, v), acc, r, rest)
    ensures EntriesRefuse(more, acc + [Entry(name, f)], r) ==> EntriesRefuse(EntryTextK(lvl, name, v), acc, r)
  {
    assert Show(0);
    EntryText(lvl, name + ("\"" + (":" + v)), acc);
    EntryValue(name, v);
    var t := "," + more;
    assert SkipSpace(t) == t && t[0] == ',' && t[1..] == more;
  }

  /** The map parser never takes back what it has read. */
  lemma {:induction false} EntriesExtend(s: string, acc: seq<Entry>)
    ensures var r := ParseEntries(s, acc); r.Parsed? ==> r.value.Map? && acc <= r.value.entries
    decreases |s|
  {
    var t := SkipSpace(s);
    if t != "" && t[0] == '"' {
      var p := ParseEntry(t[1..]);
      if p.Parsed? && p.rest != "" && p.rest[0] == ',' {
        EntriesExtend(p.rest[1..], acc + [p.value]);
      }
    }
  }

  /** A first entry that reads as another one, or not at all, spoils the map. */
  lemma EntrySpoils(lvl: int, y: string, e: Entry, acc: seq<Entry>, r: seq<Entry>)
    requires acc + [e] <= r && (ParseEntry(y).Parsed? ==> ParseEntry(y).value != e)
    ensures EntriesRefuse(Indent(lvl) + ("\"" + y), acc, r)
  {
    EntryText(lvl, y, acc);
    var p := ParseEntry(y);
    if p.Parsed? {
      assert r[|acc|] == e;
      assert (acc + [p.value])[|acc|] == p.value;
      if p.rest != "" && p.rest[0] == ',' {
        EntriesExtend(p.rest[1..], acc + [p.value]);
      }
    }
  }

  lemma EntryRefused(lvl: int, name: string, v: string, f: Field, acc: seq<Entry>, r: seq<Entry>)
    requires '\0' !in name && ('"' in name || FieldRefuses(v, f)) && acc + [Entry(name, f)] <= r
    ensures EntriesRefuse(EntryTextK(lvl, name, v), acc, r)
  {
    assert Show(0);
    if '"' in name {
      EntryNameRefused(name, v);
    } else {
      EntryValue(name, v);
    }
    EntrySpoils(lvl, name + ("\"" + (":" + v)), Entry(name, f), acc, r);
  }

  // ---- every printed tree ----

  /** A printed tree reads as itself if it is plain, and does not if it is not. */
  lemma {:induction false} Decided(f: Field, lvl: int, k: string)
    requires CStrings(f)
    ensures if Plain(f) then FieldReads(PrintK(f, lvl, k), f, SkipSpace(k)) else FieldRefuses(PrintK(f, lvl, k), f)
    decreases f, 2
  {
    assert SkipSpace(SkipSpace(k)) == SkipSpace(k);
    match f {
      case Scalar(text) => ScalarReads(text, k);
      case Array(items) =>
        var body := PrintItemsK(items, true, lvl, "]" + k);
        ItemsDecided(items, true, [], lvl, k);
        assert [] + items == items;
        ArrayReads(body, items, SkipSpace(k));
      case Map(entries) =>
        var body := PrintEntriesK(entries, true, lvl, "}" + k);
        EntriesDecided(entries, [], lvl, k);
        assert [] + entries == entries;
        MapReads(body, entries, SkipSpace(k));
    }
  }

  lemma ItemTailStarts(items: seq<Field>, lvl: int, k: string)
    ensures var tail := PrintItemsK(items, false, lvl, "]" + k); SkipSpace(tail) == tail
  {
  }

  lemma {:induction false} ItemsDecided(items: seq<Field>, first: bool, acc: seq<Field>, lvl: int, k: string)
    requires forall i | 0 <= i < |items| :: CStrings(items[i])
    ensures var s := PrintItemsK(items, first, lvl, "]" + k);
            if (forall i | 0 <= i < |items| :: Plain(items[i]))
            then ItemsRead(s, acc, acc + items, SkipSpace(k)) else ItemsRefuse(s, acc, acc + items)
    decreases items, 1
  {
    if items == [] {
      assert acc + items == acc;
      ArrayEnds(k, acc);
    } else {
      var f, tail := items[0], PrintItemsK(items[1..], false, lvl, "]" + k);
      var x := PrintK(f, lvl + 1, tail);
      ItemTailStarts(items[1..], lvl, k);
      PrintStarts(f, lvl + 1, tail);
      Decided(f, lvl + 1, tail);
      if Plain(f) {
        ItemsDecided(items[1..], false, acc + [f], lvl, k);
        assert acc + [f] + items[1..] == acc + items;
        ItemReads(first, lvl, x, f, tail, acc, acc + items, SkipSpace(k));
      } else {
        ItemRefused(first, lvl, x, f, acc, acc + items);
      }
    }
  }

  lemma EntriesTextK(entries: seq<Entry>, lvl: int, k: string)
    requires entries != []
    ensures var tail := PrintEntriesK(entries[1..], false, lvl, k);
            var s := EntryTextK(lvl, entries[0].name, PrintK(entries[0].value, lvl + 1, tail));
            PrintEntriesK(entries, true, lvl, k) == s && PrintEntriesK(entries, false, lvl, k) == "," + s
  {
    var tail := PrintEntriesK(entries[1..], false, lvl, k);
    var s := EntryTextK(lvl, entries[0].name, PrintK(entries[0].value, lvl + 1, tail));
    assert Comma(true) + s == s;
  }

  ghost predicate AllPlain(entries: seq<Entry>) {
    forall i | 0 <= i < |entries| :: PlainEntry(entries[i])
  }

  lemma AllPlainCons(entries: seq<Entry>)
    requires entries != []
    ensures AllPlain(entries) <==> PlainEntry(entries[0]) && AllPlain(entries[1..])
  {
    if PlainEntry(entries[0]) && AllPlain(entries[1..]) {
      forall i | 0 <= i < |entries|
        ensures PlainEntry(entries[i])
      {
        assert i > 0 ==> entries[i] == entries[1..][i - 1];
      }
    }
  }

  lemma {:induction false} EntriesDecided(entries: seq<Entry>, acc: seq<Entry>, lvl: int, k: string)
    requires forall i | 0 <= i < |entries| :: CStringsEntry(entries[i])
    ensures var s := PrintEntriesK(entries, true, lvl, "}" + k);
            if AllPlain(entries) then EntriesRead(s, acc, acc + entries, SkipSpace(k))
            else EntriesRefuse(s, acc, acc + entries)
    decreases entries, 1
  {
    if entries == [] {
      assert acc + entries == acc;
      MapEnds(k, acc);
    } else {
      var e, others := entries[0], entries[1..];
      Decided(e.value, lvl + 1, PrintEntriesK(others, false, lvl, "}" + k));
      if others != [] {
        EntriesDecided(others, acc + [e], lvl, k);
      }
      FirstEntryDecides(entries, acc, lvl, k);
    }
  }

  /** The first entry and the others decide together. */
  lemma FirstEntryDecides(entries: seq<Entry>, acc: seq<Entry>, lvl: int, k: string)
    requires entries != [] && CStringsEntry(entries[0])
    requires var tail := PrintEntriesK(entries[1..], false, lvl, "}" + k);
             var v := PrintK(entries[0].value, lvl + 1, tail);
             if Plain(entries[0].value) then FieldReads(v, entries[0].value, SkipSpace(tail))
             else FieldRefuses(v, entries[0].value)
    requires var s := PrintEntriesK(entries[1..], true, lvl, "}" + k);
             var acc' := acc + [entries[0]];
             entries[1..] == [] ||
             if AllPlain(entries[1..]) then EntriesRead(s, acc', acc' + entries[1..], SkipSpace(k))
             else EntriesRefuse(s, acc', acc' + entries[1..])
    ensures var s := PrintEntriesK(entries, true, lvl, "}" + k);
            if AllPlain(entries) then EntriesRead(s, acc, acc + entries, SkipSpace(k))
            else EntriesRefuse(s, acc, acc + entries)
  {
    var e, others := entries[0], entries[1..];
    var tail := PrintEntriesK(others, false, lvl, "}" + k);
    var v := PrintK(e.value, lvl + 1, tail);
    EntriesTextK(entries, lvl, "}" + k);
    AllPlainCons(entries);
    assert acc + [e] + others == acc + entries;
    if !PlainEntry(e) {
      EntryRefused(lvl, e.name, v, e.value, acc, acc + entries);
    } else if others == [] {
      assert tail == "}" + k && acc + entries == acc + [e];
      LastEntryReads(lvl, e.name, v, e.value, k, acc);
    } else {
      EntriesTextK(others, lvl, "}" + k);
      EntryReads(lvl, e.name, v, e.value, PrintEntriesK(others, true, lvl, "}" + k), acc, acc + entries, SkipSpace(k));
    }
  }

  /** A printed tree is read back as the same tree, whatever the indentation and whatever text
      follows, exactly if it is plain; only leading white space of the following text is
      consumed then. */
  lemma RoundTrip(f: Field, lvl: int, k: string)
    requires CStrings(f)
    ensures ParseField(Print(f, lvl) + k) == Parsed(f, SkipSpace(k)) <==> Plain(f)
    ensures (exists rest :: ParseField(Print(f, lvl) + k) == Parsed(f, rest)) <==> Plain(f)
  {
    PrintThen(f, lvl, k);
    Decided(f, lvl, k);
    assert Show(0);
  }
}
