/** datafield_print (parse.c): what it writes is Print. */
module DataFieldPrinter {
  import opened DataField

  method PrintDataField(f: Field, lvl: int) returns (out: string)
    ensures out == Print(f, lvl)
    decreases f, 1
  {
    match f {
      case Scalar(text) => out := "\"" + (text + "\"");
      case Array(items) =>
        out := PrintArrayItems(items, lvl);
        out := "[" + (out + "]");
      case Map(entries) =>
        out := PrintMapEntries(entries, lvl);
        out := "{" + (out + "}");
    }
  }

  lemma Regroup(a: string, c: string, i: string, x: string, r: string)
    ensures (a + (c + (i + x))) + r == a + (c + (i + (x + r)))
  {
    assert (c + (i + x)) + r == c + (i + (x + r));
  }

  method PrintArrayItems(items: seq<Field>, lvl: int) returns (out: string)
    ensures out == PrintItems(items, true, lvl)
    decreases items, 0
  {
    out := "";
    var i := 0;
    while i < |items|
      invariant 0 <= i <= |items|
      invariant out + PrintItems(items[i..], i == 0, lvl) == PrintItems(items, true, lvl)
    {
      var ch := PrintDataField(items[i], lvl + 1);
      assert items[i..][1..] == items[i + 1..];
      Regroup(out, Comma(i == 0), Indent(lvl), ch, PrintItems(items[i + 1..], false, lvl));
      out := out + (Comma(i == 0) + (Indent(lvl) + ch));
      i := i + 1;
    }
  }

  method PrintMapEntries(entries: seq<Entry>, lvl: int) returns (out: string)
    ensures out == PrintEntries(entries, true, lvl)
    decreases entries, 0
  {
    out := "";
    var i := 0;
    while i < |entries|
      invariant 0 <= i <= |entries|
      invariant out + PrintEntries(entries[i..], i == 0, lvl) == PrintEntries(entries, true, lvl)
    {
      var ch := PrintDataField(entries[i].value, lvl + 1);
      ch := "\"" + (entries[i].name + ("\":" + ch));
      assert entries[i..][1..] == entries[i + 1..];
      Regroup(out, Comma(i == 0), Indent(lvl), ch, PrintEntries(entries[i + 1..], false, lvl));
      out := out + (Comma(i == 0) + (Indent(lvl) + ch));
      i := i + 1;
    }
  }
}
