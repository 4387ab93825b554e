/** The growing character buffer of buf.c. */
module Buf {
  const BUF_GROWAMT := 30

  class Buffer {
    var pos: int
    var max: int
    var data: array<char>

    /** The last used position is inside the allocation, or nothing is allocated yet. */
    ghost predicate Valid()
      reads this
    {
      && -1 <= pos && data.Length == (if max == -1 then 0 else max)
      && (if max == -1 then pos == -1 else pos < max)
    }

    ghost function Contents(): (s: string)
      reads this, data
      requires Valid()
      ensures |s| == pos + 1
    {
      data[..pos + 1]
    }

    constructor ()
      ensures Valid() && fresh(data) && Contents() == ""
    {
      pos, max := -1, -1;
      data := new char[0];
    }

    /** Enlarge the allocation to max characters. */
    method Realloc()
      requires data.Length <= max
      modifies this`data
      ensures fresh(data) && data.Length == max && data[..old(data.Length)] == old(data[..])
    {
      var bigger := new char[max];
      forall i | 0 <= i < data.Length {
        bigger[i] := data[i];
      }
      data := bigger;
    }

    method Append(ch: char)
      requires Valid()
      modifies this, data
      ensures Valid() && (data == old(data) || fresh(data))
      ensures Contents() == old(Contents()) + [ch]
    {
      pos := pos + 1;
      if pos >= max {
        max := max + BUF_GROWAMT;
        Realloc();
      }
      data[pos] := ch;
    }

    method AppendString(s: string)
      requires Valid()
      modifies this, data
      ensures Valid() && (data == old(data) || fresh(data))
      ensures Contents() == old(Contents()) + s
    {
      var i := 0;
      while i < |s|
        invariant 0 <= i <= |s|
        invariant Valid() && (data == old(data) || fresh(data))
        invariant Contents() == old(Contents()) + s[..i]
      {
        Append(s[i]);
        i := i + 1;
        assert s[..i] == s[..i - 1] + [s[i - 1]];
      }
    }

    /** Forget the last character. */
    method Chop()
      requires Valid() && Contents() != ""
      modifies this`pos
      ensures Valid() && Contents() == old(Contents())[..|old(Contents())| - 1]
    {
      pos := pos - 1;
    }

    /** Forget everything, keeping the allocation. */
    method Reset()
      requires Valid()
      modifies this`pos
      ensures Valid() && Contents() == ""
    {
      pos := -1;
    }

    method Get() returns (s: string)
      requires Valid()
      ensures s == Contents()
    {
      s := data[..pos + 1];
    }
  }
}
