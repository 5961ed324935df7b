/** `Tpm2Test.check_endlines`: strike the lines of a command's output off a list of expected ones. */
module Endlines {
  import opened Text

  function RemoveFirst(items: seq<string>, x: string): seq<string> {
    if items == [] then []
    else if items[0] == x then items[1..]
    else [items[0]] + RemoveFirst(items[1..], x)
  }

  /** Line by line: each line strikes the first item equal to it, if there is one. */
  function Struck(items: seq<string>, lines: seq<string>): seq<string>
    decreases lines
  {
    if lines == [] then items else Struck(RemoveFirst(items, lines[0]), lines[1..])
  }

  /** The reference, item by item: an item is struck while its line is still unused. */
  function Remaining(items: seq<string>, unused: multiset<string>): seq<string> {
    if items == [] then []
    else if items[0] in unused then Remaining(items[1..], unused - multiset{items[0]})
    else [items[0]] + Remaining(items[1..], unused)
  }

  lemma {:induction false} RemainingAfterOne(items: seq<string>, x: string, unused: multiset<string>)
    ensures Remaining(RemoveFirst(items, x), unused) == Remaining(items, unused + multiset{x})
  {
    if items == [] {
    } else {
      var y := items[0];
      if y == x {
        assert unused + multiset{x} - multiset{x} == unused;
      } else {
        assert unused + multiset{x} - multiset{y} == (unused - multiset{y}) + multiset{x};
        RemainingAfterOne(items[1..], x, unused);
        RemainingAfterOne(items[1..], x, unused - multiset{y});
      }
    }
  }

  lemma {:induction false} RemainingUnused(items: seq<string>)
    ensures Remaining(items, multiset{}) == items
  {
    if items == [] {
    } else {
      RemainingUnused(items[1..]);
    }
  }

  /** Striking by lines and striking by items leave the same list, order included. */
  lemma {:induction false} StruckIsRemaining(items: seq<string>, lines: seq<string>)
    ensures Struck(items, lines) == Remaining(items, multiset(lines))
    decreases lines
  {
    if lines == [] {
      RemainingUnused(items);
    } else {
      assert lines == [lines[0]] + lines[1..];
      assert multiset(lines) == multiset(lines[1..]) + multiset{lines[0]};
      StruckIsRemaining(RemoveFirst(items, lines[0]), lines[1..]);
      RemainingAfterOne(items, lines[0], multiset(lines[1..]));
    }
  }

  /** What is left is the multiset difference. */
  lemma {:induction false} RemainingIsDifference(items: seq<string>, unused: multiset<string>)
    ensures multiset(Remaining(items, unused)) == multiset(items) - unused
  {
    if items == [] {
    } else {
      assert items == [items[0]] + items[1..];
      RemainingIsDifference(items[1..], unused);
      RemainingIsDifference(items[1..], unused - multiset{items[0]});
    }
  }

  /** The check passes exactly when the output holds every expected line as often as expected. */
  lemma NothingRemainsIff(items: seq<string>, lines: seq<string>)
    ensures Struck(items, lines) == [] <==> multiset(items) <= multiset(lines)
  {
    StruckIsRemaining(items, lines);
    RemainingIsDifference(items, multiset(lines));
    var rest := Remaining(items, multiset(lines));
    if rest != [] {
      assert rest[0] in multiset(rest);
    } else {
      forall x ensures multiset(items)[x] <= multiset(lines)[x] {
        assert multiset(rest)[x] == 0;
      }
    }
  }

  /** The order of the output lines does not matter, not even for what is reported. */
  lemma LineOrderIsIrrelevant(items: seq<string>, lines: seq<string>, others: seq<string>)
    requires multiset(lines) == multiset(others)
    ensures Struck(items, lines) == Struck(items, others)
  {
    StruckIsRemaining(items, lines);
    StruckIsRemaining(items, others);
  }

  lemma {:induction false} RemoveFirstAt(items: seq<string>, k: nat)
    requires k < |items| && items[k] !in items[..k]
    ensures RemoveFirst(items, items[k]) == items[..k] + items[k + 1..]
  {
    if k == 0 {
    } else {
      assert items[..k] == [items[0]] + items[1..][..k - 1];
      RemoveFirstAt(items[1..], k - 1);
    }
  }

  /** A list object that the caller shares. */
  class EndlineList {
    var items: seq<string>

    constructor (items: seq<string>)
      ensures this.items == items
    {
      this.items := items;
    }

    method Remove(el: string)
      requires el in items
      modifies this`items
      ensures items == RemoveFirst(old(items), el)
    {
      var k := 0;
      while items[k] != el
        invariant k < |items| && el in items[k..] && el !in items[..k]
        decreases |items| - k
      {
        k := k + 1;
      }
      RemoveFirstAt(items, k);
      items := items[..k] + items[k + 1..];
    }
  }

  lemma {:induction false} RemoveFirstAbsent(items: seq<string>, x: string)
    requires x !in items
    ensures RemoveFirst(items, x) == items
  {
    if items == [] {
    } else {
      RemoveFirstAbsent(items[1..], x);
    }
  }

  /** The nested loops; a failure is the message of `self.fail`. */
  method CheckEndlines(lines: seq<string>, expected: EndlineList) returns (failure: Option<string>)
    modifies expected`items
    ensures expected.items == Remaining(old(expected.items), multiset(lines))
    ensures multiset(expected.items) == multiset(old(expected.items)) - multiset(lines)
    ensures failure == None <==> multiset(old(expected.items)) <= multiset(lines)
    ensures failure != None ==>
              failure == Some("Missing expected line endings:\n  " + Join("\n  ", expected.items))
  {
    ghost var before := expected.items;
    for n := 0 to |lines|
      invariant Struck(expected.items, lines[n..]) == Struck(before, lines)
    {
      var line := lines[n];
      assert lines[n..][0] == line && lines[n..][1..] == lines[n + 1..];
      ghost var items := expected.items;
      var k := 0;
      while k < |expected.items|
        invariant k <= |items| && expected.items == items && line !in items[..k]
      {
        var el := expected.items[k];
        if line == el {
          expected.Remove(el);
          break;
        }
        k := k + 1;
      }
      if k == |items| {
        assert items[..k] == items;
        RemoveFirstAbsent(items, line);
      }
    }
    StruckIsRemaining(before, lines);
    RemainingIsDifference(before, multiset(lines));
    NothingRemainsIff(before, lines);
    if expected.items != [] {
      failure := Some("Missing expected line endings:\n  " + Join("\n  ", expected.items));
    } else {
      failure := None;
    }
  }

  /** The message names every missing line, each on a line of its own. */
  lemma MissingLines(items: seq<string>, x: string, y: string)
    ensures Join("\n  ", [x]) == x && Join("\n  ", [x, y]) == x + "\n  " + y
    ensures items != [] ==> Join("\n  ", [x] + items) == x + "\n  " + Join("\n  ", items)
  {
    assert [x, y][1..] == [y];
    assert ([x] + items)[1..] == items;
  }
}
