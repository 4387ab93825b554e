/** The data fields that the statistics server sends (parse.c): scalars, arrays and maps. The
    printer and the grammar that the four parsers follow are functions here; the parsers
    themselves, which work on a stream, are in DataFieldParser. */
module DataField {
  import opened CType

  datatype Field =
    | Scalar(text: string)
    | Array(items: seq<Field>)
    | Map(entries: seq<Entry>)

  datatype Entry = Entry(name: string, value: Field)

  // ---- printing ----

  function Spaces(n: nat): (s: string)
    ensures |s| == n && forall k | 0 <= k < n :: s[k] == ' '
  {
    seq(n, _ => ' ')
  }

  function Indent(lvl: int): string {
    if lvl < 4 then "\n" + Spaces(if lvl < 0 then -lvl else lvl) else ""
  }

  function Comma(first: bool): string {
    if first then "" else ","
  }

  /** What datafield_print writes at the given level. */
  function Print(f: Field, lvl: int): string
    decreases f, 1
  {
    match f
    case Scalar(text) => "\"" + (text + "\"")
    case Array(items) => "[" + (PrintItems(items, true, lvl) + "]")
    case Map(entries) => "{" + (PrintEntries(entries, true, lvl) + "}")
  }

  function PrintItems(items: seq<Field>, first: bool, lvl: int): string
    decreases items, 0
  {
    if items == [] then ""
    else Comma(first) + (Indent(lvl) + (Print(items[0], lvl + 1) + PrintItems(items[1..], false, lvl)))
  }

  function PrintEntries(entries: seq<Entry>, first: bool, lvl: int): string
    decreases entries, 0
  {
    if entries == [] then ""
    else Comma(first) + (Indent(lvl) + (PrintEntry(entries[0], lvl) + PrintEntries(entries[1..], false, lvl)))
  }

  function PrintEntry(e: Entry, lvl: int): string
    decreases e, 0
  {
    "\"" + (e.name + ("\":" + Print(e.value, lvl + 1)))
  }

  // ---- parsing ----

  /** What a parser makes of the text before it: a value, or an error, either way with the
      text it has not read; or it never stops, because the text ends inside quotes. */
  datatype Parse<+T> =
    | Parsed(value: T, rest: string)
    | Failed(rest: string)
    | Hangs

  /** The text after an opening quote. In a scalar, a backslash is read over. */
  function Quoted(s: string, acc: string, escapes: bool): (r: Parse<string>)
    ensures r.Parsed? ==> |r.rest| < |s|
    ensures r.Failed? ==> |r.rest| < |s|
  {
    if s == "" then Hangs
    else if s[0] == '\0' then Failed(s[1..])
    else if s[0] == '"' then Parsed(acc, s[1..])
    else if s[0] == '\\' && escapes then Quoted(s[1..], acc, escapes)
    else Quoted(s[1..], acc + [s[0]], escapes)
  }

  function Digits(s: string, acc: string): (r: (string, string))
    ensures |r.1| <= |s|
    ensures s != "" && IsDigit(s[0]) ==> |r.1| < |s|
  {
    if s != "" && IsDigit(s[0]) then Digits(s[1..], acc + [s[0]]) else (acc, s)
  }

  function ParseScalar(s: string): (r: Parse<Field>)
    ensures r.Parsed? ==> |r.rest| < |s|
    ensures r.Failed? ==> |r.rest| <= |s|
  {
    if s == "" then Failed("")
    else if IsDigit(s[0]) then
      var (text, rest) := Digits(s, "");
      Parsed(Scalar(text), SkipSpace(rest))
    else if s[0] == '"' then
      match Quoted(s[1..], "", true) {
        case Parsed(text, rest) => Parsed(Scalar(text), SkipSpace(rest))
        case Failed(rest) => Failed(rest)
        case Hangs => Hangs
      }
    else Failed(s[1..])
  }

  predicate StartsField(c: char) {
    IsDigit(c) || c in "\"[{"
  }

  function ParseField(s: string): (r: Parse<Field>)
    ensures r.Parsed? ==> |r.rest| < |s|
    ensures r.Failed? ==> |r.rest| <= |s|
    decreases |s|, 0
  {
    var t := SkipSpace(s);
    if t == "" then Failed("")
    else if !StartsField(t[0]) then Failed(t[1..])
    else
      var r := if t[0] == '[' then ParseItems(t[1..], [])
               else if t[0] == '{' then ParseEntries(t[1..], [])
               else ParseScalar(t);
      match r {
        case Parsed(f, rest) => Parsed(f, SkipSpace(rest))
        case Failed(rest) => Failed(SkipSpace(rest))
        case Hangs => Hangs
      }
  }

  /** The text after "[" and the given items. */
  function ParseItems(s: string, acc: seq<Field>): (r: Parse<Field>)
    ensures r.Parsed? ==> |r.rest| < |s|
    ensures r.Failed? ==> |r.rest| <= |s|
    decreases |s|, 1
  {
    var t := SkipSpace(s);
    if t == "" then Failed("")
    else if StartsField(t[0]) then
      match ParseField(t) {
        case Parsed(f, rest) => ParseItems(rest, acc + [f])
        case Failed(rest) => Failed(rest)
        case Hangs => Hangs
      }
    else if t[0] == ',' then ParseItems(t[1..], acc)
    else if t[0] == ']' then Parsed(Array(acc), SkipSpace(t[1..]))
    else Failed(t[1..])
  }

  /** The text after "{" and the given entries. */
  function ParseEntries(s: string, acc: seq<Entry>): (r: Parse<Field>)
    ensures r.Parsed? ==> |r.rest| < |s|
    ensures r.Failed? ==> |r.rest| <= |s|
    decreases |s|, 1
  {
    var t := SkipSpace(s);
    if t == "" then Failed("")
    else if t[0] == '}' then Parsed(Map(acc), SkipSpace(t[1..]))
    else if t[0] != '"' then Failed(t[1..])
    else
      match ParseEntry(t[1..]) {
        case Failed(rest) => Failed(rest)
        case Hangs => Hangs
        case Parsed(e, rest) =>
          if rest == "" then Failed("")
          else if rest[0] == '}' then Parsed(Map(acc + [e]), SkipSpace(rest[1..]))
          else if rest[0] == ',' then ParseEntries(rest[1..], acc + [e])
          else Failed(rest[1..])
      }
  }

  /** The text after the opening quote of an entry's name. */
  function ParseEntry(s: string): (r: Parse<Entry>)
    ensures r.Parsed? ==> |r.rest| < |s|
    ensures r.Failed? ==> |r.rest| <= |s|
    decreases |s|, 0
  {
    match Quoted(s, "", false) {
      case Failed(rest) => Failed(rest)
      case Hangs => Hangs
      case Parsed(name, rest) =>
        var t := SkipSpace(rest);
        if t == "" then Failed("")
        else if t[0] != ':' then Failed(t[1..])
        else
          match ParseField(t[1..]) {
            case Parsed(f, rest) => Parsed(Entry(name, f), SkipSpace(rest))
            case Failed(rest) => Failed(rest)
            case Hangs => Hangs
          }
    }
  }

  // ---- when the parsers stop ----

  /** The loops that read up to a quote go on for ever exactly if there is neither a quote nor a NUL. */
  lemma {:induction false} QuotedHangsIff(s: string, acc: string, escapes: bool)
    ensures Quoted(s, acc, escapes) == Hangs <==> '"' !in s && '\0' !in s
    decreases |s|
  {
    if s != "" && s[0] != '\0' && s[0] != '"' {
      QuotedHangsIff(s[1..], if s[0] == '\\' && escapes then acc else acc + [s[0]], escapes);
      assert s == [s[0]] + s[1..];
    }
  }

  /** A stop, and not over the NUL if something was read. */
  predicate StopsBefore<T>(r: Parse<T>) {
    r != Hangs && (r.Parsed? ==> '\0' in r.rest)
  }

  lemma {:induction false} SkipSpaceKeepsNul(s: string)
    requires '\0' in s
    ensures '\0' in SkipSpace(s)
  {
    if IsSpace(s[0]) {
      SkipSpaceKeepsNul(s[1..]);
    }
  }

  lemma {:induction false} QuotedStops(s: string, acc: string, escapes: bool)
    requires '\0' in s
    ensures StopsBefore(Quoted(s, acc, escapes))
  {
    if s[0] != '\0' && s[0] != '"' {
      QuotedStops(s[1..], acc, escapes);
      QuotedStops(s[1..], acc + [s[0]], escapes);
    }
  }

  lemma {:induction false} DigitsStop(s: string, acc: string)
    requires '\0' in s
    ensures '\0' in Digits(s, acc).1
  {
    if IsDigit(s[0]) {
      DigitsStop(s[1..], acc + [s[0]]);
    }
  }

  lemma ScalarStops(s: string)
    requires '\0' in s
    ensures StopsBefore(ParseScalar(s))
  {
    if IsDigit(s[0]) {
      DigitsStop(s, "");
      SkipSpaceKeepsNul(Digits(s, "").1);
    } else if s[0] == '"' {
      QuotedStops(s[1..], "", true);
      var r := Quoted(s[1..], "", true);
      if r.Parsed? {
        SkipSpaceKeepsNul(r.rest);
      }
    }
  }

  /** On a stream that still carries a NUL the parser stops. */
  lemma {:induction false} FieldStops(s: string)
    requires '\0' in s
    ensures StopsBefore(ParseField(s))
    decreases |s|, 0
  {
    SkipSpaceKeepsNul(s);
    var t := SkipSpace(s);
    if StartsField(t[0]) {
      var r := if t[0] == '[' then ParseItems(t[1..], [])
               else if t[0] == '{' then ParseEntries(t[1..], [])
               else ParseScalar(t);
      if t[0] == '[' {
        ItemsStop(t[1..], []);
      } else if t[0] == '{' {
        EntriesStop(t[1..], []);
      } else {
        ScalarStops(t);
      }
      if r.Parsed? {
        SkipSpaceKeepsNul(r.rest);
      }
    }
  }

  lemma {:induction false} ItemsStop(s: string, acc: seq<Field>)
    requires '\0' in s
    ensures StopsBefore(ParseItems(s, acc))
    decreases |s|, 1
  {
    SkipSpaceKeepsNul(s);
    var t := SkipSpace(s);
    if StartsField(t[0]) {
      FieldStops(t);
      var r := ParseField(t);
      if r.Parsed? {
        ItemsStop(r.rest, acc + [r.value]);
      }
    } else if t[0] == ',' {
      ItemsStop(t[1..], acc);
    } else if t[0] == ']' {
      SkipSpaceKeepsNul(t[1..]);
    }
  }

  lemma {:induction false} EntriesStop(s: string, acc: seq<Entry>)
    requires '\0' in s
    ensures StopsBefore(ParseEntries(s, acc))
    decreases |s|, 1
  {
    SkipSpaceKeepsNul(s);
    var t := SkipSpace(s);
    if t[0] == '}' {
      SkipSpaceKeepsNul(t[1..]);
    } else if t[0] == '"' {
      EntryStops(t[1..]);
      var r := ParseEntry(t[1..]);
      if r.Parsed? {
        if r.rest[0] == '}' {
          SkipSpaceKeepsNul(r.rest[1..]);
        } else if r.rest[0] == ',' {
          EntriesStop(r.rest[1..], acc + [r.value]);
        }
      }
    }
  }

  lemma {:induction false} EntryStops(s: string)
    requires '\0' in s
    ensures StopsBefore(ParseEntry(s))
    decreases |s|, 0
  {
    QuotedStops(s, "", false);
    var r := Quoted(s, "", false);
    if r.Parsed? {
      SkipSpaceKeepsNul(r.rest);
      var t := SkipSpace(r.rest);
      if t[0] == ':' {
        FieldStops(t[1..]);
        var v := ParseField(t[1..]);
        if v.Parsed? {
          SkipSpaceKeepsNul(v.rest);
        }
      }
    }
  }
}
