/** The trees that the parsers build (parse.c) can all be printed and read back: whatever text they
    come from, their strings have no quote and no NUL, and their scalars no backslash. */
module DataFieldReprint {
  import opened CType
  import opened DataField
  import opened DataFieldRoundTrip

  lemma {:induction false} QuotedIsPlain(s: string, acc: string, escapes: bool)
    requires '"' !in acc && '\0' !in acc && (escapes ==> '\\' !in acc)
    ensures var r := Quoted(s, acc, escapes);
            r.Parsed? ==> '"' !in r.value && '\0' !in r.value && (escapes ==> '\\' !in r.value)
    decreases |s|
  {
    if s != "" && s[0] != '\0' && s[0] != '"' {
      QuotedIsPlain(s[1..], if s[0] == '\\' && escapes then acc else acc + [s[0]], escapes);
    }
  }

  lemma {:induction false} DigitsArePlain(s: string, acc: string)
    requires '"' !in acc && '\0' !in acc && '\\' !in acc
    ensures var d := Digits(s, acc).0; '"' !in d && '\0' !in d && '\\' !in d
    decreases |s|
  {
    if s != "" && IsDigit(s[0]) {
      DigitsArePlain(s[1..], acc + [s[0]]);
    }
  }

  ghost predicate Printable(f: Field) {
    Plain(f) && CStrings(f)
  }

  ghost predicate PrintableEntry(e: Entry) {
    PlainEntry(e) && CStringsEntry(e)
  }

  lemma ScalarPrintable(s: string)
    ensures ParseScalar(s).Parsed? ==> Printable(ParseScalar(s).value)
  {
    if s != "" && IsDigit(s[0]) {
      DigitsArePlain(s, "");
    } else if s != "" && s[0] == '"' {
      QuotedIsPlain(s[1..], "", true);
    }
  }

  lemma {:induction false} ParsedPrintable(s: string)
    ensures ParseField(s).Parsed? ==> Printable(ParseField(s).value)
    decreases |s|, 0
  {
    var t := SkipSpace(s);
    if t != "" && StartsField(t[0]) {
      if t[0] == '[' {
        ItemsPrintable(t[1..], []);
      } else if t[0] == '{' {
        EntriesPrintable(t[1..], []);
      } else {
        ScalarPrintable(t);
      }
    }
  }

  lemma {:induction false} ItemsPrintable(s: string, acc: seq<Field>)
    requires forall f | f in acc :: Printable(f)
    ensures ParseItems(s, acc).Parsed? ==> Printable(ParseItems(s, acc).value)
    decreases |s|, 1
  {
    var t := SkipSpace(s);
    if t != "" {
      if StartsField(t[0]) {
        ParsedPrintable(t);
        if ParseField(t).Parsed? {
          ItemsPrintable(ParseField(t).rest, acc + [ParseField(t).value]);
        }
      } else if t[0] == ',' {
        ItemsPrintable(t[1..], acc);
      } else if t[0] == ']' {
        ArrayPrintable(acc);
      }
    }
  }

  lemma ArrayPrintable(items: seq<Field>)
    requires forall f | f in items :: Printable(f)
    ensures Printable(Array(items))
  {
    forall i | 0 <= i < |items|
      ensures Plain(items[i]) && CStrings(items[i])
    {
      assert items[i] in items;
    }
  }

  lemma MapPrintable(entries: seq<Entry>)
    requires forall e | e in entries :: PrintableEntry(e)
    ensures Printable(Map(entries))
  {
    forall i | 0 <= i < |entries|
      ensures PlainEntry(entries[i]) && CStringsEntry(entries[i])
    {
      assert entries[i] in entries;
    }
  }

  lemma {:induction false} EntriesPrintable(s: string, acc: seq<Entry>)
    requires forall e | e in acc :: PrintableEntry(e)
    ensures ParseEntries(s, acc).Parsed? ==> Printable(ParseEntries(s, acc).value)
    decreases |s|, 1
  {
    var t := SkipSpace(s);
    if t != "" && t[0] == '}' {
      MapPrintable(acc);
    } else if t != "" && t[0] == '"' {
      var r := ParseEntry(t[1..]);
      EntryPrintable(t[1..]);
      if r.Parsed? && r.rest != "" {
        if r.rest[0] == '}' {
          MapPrintable(acc + [r.value]);
        } else if r.rest[0] == ',' {
          EntriesPrintable(r.rest[1..], acc + [r.value]);
        }
      }
    }
  }

  lemma {:induction false} EntryPrintable(s: string)
    ensures ParseEntry(s).Parsed? ==> PrintableEntry(ParseEntry(s).value)
    decreases |s|, 0
  {
    QuotedIsPlain(s, "", false);
    var q := Quoted(s, "", false);
    if q.Parsed? {
      var t := SkipSpace(q.rest);
      if t != "" && t[0] == ':' {
        ParsedPrintable(t[1..]);
      }
    }
  }

  /** Every tree that has been read can be printed and read again, at any level, with any text
      behind it. */
  lemma ReadPrintRead(s: string, lvl: int, k: string)
    requires ParseField(s).Parsed?
    ensures var f := ParseField(s).value; ParseField(Print(f, lvl) + k) == Parsed(f, SkipSpace(k))
  {
    ParsedPrintable(s);
    RoundTrip(ParseField(s).value, lvl, k);
  }

  /** An escaped quote ends a scalar nevertheless, and its backslash is lost. */
  lemma EscapedQuoteEnds(before: string, rest: string)
    requires '"' !in before && '\\' !in before && '\0' !in before
    ensures Quoted(before + ("\\" + ("\"" + rest)), "", true) == Parsed(before, rest)
  {
    EscapedQuoteEndsAfter(before, "", rest);
    assert "" + before == before;
  }

  lemma {:induction false} EscapedQuoteEndsAfter(before: string, acc: string, rest: string)
    requires '"' !in before && '\\' !in before && '\0' !in before
    ensures Quoted(before + ("\\" + ("\"" + rest)), acc, true) == Parsed(acc + before, rest)
    decreases |before|
  {
    var end := "\"" + rest;
    var s := before + ("\\" + end);
    if before == "" {
      assert s == "\\" + end && s[1..] == end && end[1..] == rest && acc + before == acc;
    } else {
      assert s[0] == before[0] && s[1..] == before[1..] + ("\\" + end);
      assert acc + [before[0]] + before[1..] == acc + before;
      EscapedQuoteEndsAfter(before[1..], acc + [before[0]], rest);
    }
  }
}
