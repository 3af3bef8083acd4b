/** Formatting a list of items on one line (src/util/fmt/slice.rs). */
module SliceFmt {
  import opened Wrappers

  /** The field width each item is right-aligned to. */
  const Width: nat := 15

  /** `{:>15}`: pads the text on the left with spaces to the field width; longer text is kept whole. */
  function PadLeft(s: string): (p: string)
    ensures |p| == if |s| < Width then Width else |s|
    ensures p[|p| - |s|..] == s
    ensures forall i | 0 <= i < |p| - |s| :: p[i] == ' '
  {
    var fill := if |s| < Width then Width - |s| else 0;
    seq(fill, _ => ' ') + s
  }

  /** What the loop has written after the given items: each padded item followed by one space. */
  function Written<T>(items: seq<T>, render: T -> string): string {
    if |items| == 0 then ""
    else Written(items[..|items| - 1], render) + PadLeft(render(items[|items| - 1])) + " "
  }

  /** The padded items separated by single spaces, with none before the first or after the last. */
  function Joined<T>(items: seq<T>, render: T -> string): string {
    if |items| == 0 then ""
    else if |items| == 1 then PadLeft(render(items[0]))
    else PadLeft(render(items[0])) + " " + Joined(items[1..], render)
  }

  /**
   * `list`: writes each item right-aligned followed by a space, then pops the
   * trailing space. The items' `Display` is the `render` function. Writing
   * to a string cannot fail, so the result is always `Ok`.
   */
  method List<T>(list: seq<T>, render: T -> string) returns (r: Result<string, string>)
    ensures r == Ok(Joined(list, render))
  {
    var s := "";
    for i := 0 to |list|
      invariant s == Written(list[..i], render)
    {
      assert list[..i + 1][..i] == list[..i];
      s := s + PadLeft(render(list[i])) + " ";
    }
    assert list[..|list|] == list;
    if |s| > 0 {
      WrittenIsJoined(list, render);
      s := s[..|s| - 1];
    }
    r := Ok(s);
  }

  /** Appending an item to a joined line adds one space and the padded item. */
  lemma {:induction false} JoinedSnoc<T>(items: seq<T>, x: T, render: T -> string)
    requires |items| > 0
    ensures Joined(items + [x], render) == Joined(items, render) + " " + PadLeft(render(x))
    decreases |items|
  {
    if |items| > 1 {
      assert (items + [x])[1..] == items[1..] + [x];
      JoinedSnoc(items[1..], x, render);
    } else {
      assert (items + [x])[1..] == [x];
    }
  }

  /** Popping the trailing space from what the loop wrote gives the joined line. */
  lemma {:induction false} WrittenIsJoined<T>(items: seq<T>, render: T -> string)
    ensures |items| > 0 ==> Written(items, render) == Joined(items, render) + " "
    ensures |items| == 0 <==> Written(items, render) == ""
    decreases |items|
  {
    if |items| > 0 {
      var n := |items| - 1;
      WrittenIsJoined(items[..n], render);
      if n > 0 {
        JoinedSnoc(items[..n], items[n], render);
        assert items[..n] + [items[n]] == items;
      }
    }
  }

  /** When every item renders within the field width, n items give a line of 16n - 1 characters. */
  lemma {:induction false} JoinedLength<T>(items: seq<T>, render: T -> string)
    requires |items| > 0
    requires forall i | 0 <= i < |items| :: |render(items[i])| <= Width
    ensures |Joined(items, render)| == (Width + 1) * |items| - 1
    decreases |items|
  {
    if |items| > 1 {
      JoinedLength(items[1..], render);
    }
  }
}
