/** How a module dropped into the active list is named: the display name
    (spaces) and the safe name (hyphens) correspond through `replaceAll`, and a
    module already present in the active list gets a numbered suffix. */
module Naming {
  import opened Names
  import Decimal

  /** Safe name of a display name: every space becomes a hyphen and every
      other character stays where it is. */
  function ToSafeName(display: string): (safe: string)
    ensures |safe| == |display|
    ensures forall i :: 0 <= i < |display| ==>
      safe[i] == (if display[i] == ' ' then '-' else display[i])
  {
    ReplaceAllChar(display, ' ', '-');
    ReplaceAll(display, " ", "-")
  }

  /** Display name of a safe name: every hyphen becomes a space and every
      other character stays where it is. */
  function ToDisplayName(safe: string): (display: string)
    ensures |display| == |safe|
    ensures forall i :: 0 <= i < |safe| ==>
      display[i] == (if safe[i] == '-' then ' ' else safe[i])
  {
    ReplaceAllChar(safe, '-', ' ');
    ReplaceAll(safe, "-", " ")
  }

  /** A display name without hyphens survives the trip to a safe name and back. */
  lemma SafeNameRoundTrip(display: string)
    requires '-' !in display
    ensures ToDisplayName(ToSafeName(display)) == display
  {
    var safe := ToSafeName(display);
    var back := ToDisplayName(safe);
    forall i | 0 <= i < |display| ensures back[i] == display[i] {
      assert display[i] != '-';
    }
  }

  /** A safe name without spaces survives the trip to a display name and back. */
  lemma DisplayNameRoundTrip(safe: string)
    requires ' ' !in safe
    ensures ToSafeName(ToDisplayName(safe)) == safe
  {
    var display := ToDisplayName(safe);
    var back := ToSafeName(display);
    forall i | 0 <= i < |safe| ensures back[i] == safe[i] {
      assert safe[i] != ' ';
    }
  }

  /** The CSS attribute selector `[data-module-name|="base"]`: the value is the
      base itself or starts with the base followed by a hyphen. */
  predicate DashMatch(value: string, base: string): (b: bool)
    ensures b <==> (value == base ||
                    (|base| < |value| && value[..|base|] == base && value[|base|] == '-'))
  {
    value == base || base + "-" <= value
  }

  /** The base used in the duplicate query: `name.replace(' ', '-')`. It
      differs from the dragged name only at its first space, which becomes a
      hyphen; any later space is still a space. */
  function DupeBase(draggedName: string): (base: string)
    ensures |base| == |draggedName|
    ensures forall i :: 0 <= i < |draggedName| && i != IndexOf(draggedName, ' ') ==>
      base[i] == draggedName[i]
    ensures IndexOf(draggedName, ' ') < |draggedName| ==> base[IndexOf(draggedName, ' ')] == '-'
  {
    ReplaceFirstChar(draggedName, ' ', '-');
    ReplaceFirst(draggedName, " ", "-")
  }

  /** Number of active items the duplicate query selects. */
  function DupeCount(activeNames: seq<string>, base: string): (n: nat)
    ensures n <= |activeNames|
    ensures n == 0 <==> forall i :: 0 <= i < |activeNames| ==> !DashMatch(activeNames[i], base)
  {
    if activeNames == [] then 0
    else
      var last := |activeNames| - 1;
      DupeCount(activeNames[..last], base) + (if DashMatch(activeNames[last], base) then 1 else 0)
  }

  /** Positions of the active items that the duplicate query selects. */
  function MatchingItems(activeNames: seq<string>, base: string): set<int>
  {
    set i | 0 <= i < |activeNames| && DashMatch(activeNames[i], base)
  }

  /** The duplicate count is the number of active items the selector matches. */
  lemma {:induction false} DupeCountIsMatchingItems(activeNames: seq<string>, base: string)
    ensures DupeCount(activeNames, base) == |MatchingItems(activeNames, base)|
  {
    if activeNames != [] {
      var last := |activeNames| - 1;
      var init := activeNames[..last];
      DupeCountIsMatchingItems(init, base);
      if DashMatch(activeNames[last], base) {
        assert MatchingItems(activeNames, base) == MatchingItems(init, base) + {last};
      } else {
        assert MatchingItems(activeNames, base) == MatchingItems(init, base);
      }
    }
  }

  /** A dragged name with two spaces does not match the active item that
      carries its fully hyphenated safe name. */
  lemma FirstSpaceOnlyMissesDuplicate()
    ensures DupeBase("My Mod Name") == "My-Mod Name"
    ensures DupeCount(["My-Mod-Name"], DupeBase("My Mod Name")) == 0
  {
    var dragged := "My Mod Name";
    assert IndexOf(dragged, ' ') == 2;
    var base := DupeBase(dragged);
    assert base == "My-Mod Name" by {
      forall i | 0 <= i < |base| ensures base[i] == "My-Mod Name"[i] {
      }
    }
    assert "My-Mod-Name" != base && "My-Mod-Name"[6] != ' ';
  }

  /** The display name given to the dropped module: the dragged name with
      hyphens turned into spaces, followed by " (n)" when `dupes` is n > 0. */
  function DisplayName(draggedName: string, dupes: nat): (name: string)
    ensures ToDisplayName(draggedName) <= name
    ensures |name| == |draggedName| <==> dupes == 0
    ensures '-' !in name
  {
    var base := ToDisplayName(draggedName);
    if dupes > 0 then
      SuffixHasNoHyphen(base, Decimal.FromNat(dupes));
      base + " (" + Decimal.FromNat(dupes) + ")"
    else base
  }

  lemma SuffixHasNoHyphen(base: string, digits: string)
    requires '-' !in base && Decimal.AllDigits(digits)
    ensures '-' !in base + " (" + digits + ")"
  {
    var r := base + " (" + digits + ")";
    forall i | 0 <= i < |r| ensures r[i] != '-' {
      if i < |base| {
        assert r[i] == base[i] && base[i] in base;
      } else if i == |base| {
        assert r[i] == ' ';
      } else if i == |base| + 1 {
        assert r[i] == '(';
      } else if i < |r| - 1 {
        assert r[i] == digits[i - |base| - 2];
        assert Decimal.IsDigit(digits[i - |base| - 2]);
      } else {
        assert r[i] == ')';
      }
    }
  }

  /** Without duplicates the display name is the converted dragged name; with n
      of them it is that name, " (", the decimal text of n (no leading zero,
      reading back as n), and ")". */
  lemma DisplayNameParts(draggedName: string, dupes: nat)
    ensures dupes == 0 ==> DisplayName(draggedName, dupes) == ToDisplayName(draggedName)
    ensures dupes > 0 ==>
      var r := DisplayName(draggedName, dupes);
      var b := |ToDisplayName(draggedName)|;
      && b + 3 < |r| + 1
      && r[..b] == ToDisplayName(draggedName)
      && r[b..b + 2] == " ("
      && r[|r| - 1] == ')'
      && r[b + 2..|r| - 1] == Decimal.FromNat(dupes)
      && Decimal.AllDigits(r[b + 2..|r| - 1])
      && r[b + 2] != '0'
      && Decimal.Value(r[b + 2..|r| - 1]) == dupes
  {
    if dupes > 0 {
      var r := DisplayName(draggedName, dupes);
      var b := |ToDisplayName(draggedName)|;
      var digits := Decimal.FromNat(dupes);
      assert r == ToDisplayName(draggedName) + " (" + digits + ")";
      assert r[b + 2..|r| - 1] == digits;
      Decimal.ValueOfFromNat(dupes);
    }
  }

  /** Different duplicate counts give different display names; in particular a
      clone is never registered under the name of the module it was cloned from. */
  lemma DisplayNameInjective(draggedName: string, n: nat, m: nat)
    ensures n != m ==> DisplayName(draggedName, n) != DisplayName(draggedName, m)
  {
    DisplayNameParts(draggedName, n);
    DisplayNameParts(draggedName, m);
    if n > 0 && m > 0 && DisplayName(draggedName, n) == DisplayName(draggedName, m) {
      Decimal.FromNatInjective(n, m);
    }
  }

  /** The safe name of a dropped module has no spaces, is as long as its display
      name, and converts back to exactly that display name: a later reorder of
      the item, which converts the safe name back, names the same module. */
  lemma SafeNameOfDisplayName(draggedName: string, dupes: nat)
    ensures var display := DisplayName(draggedName, dupes);
      && ' ' !in ToSafeName(display)
      && |ToSafeName(display)| == |display|
      && ToDisplayName(ToSafeName(display)) == display
  {
    var display := DisplayName(draggedName, dupes);
    var safe := ToSafeName(display);
    forall i | 0 <= i < |safe| ensures safe[i] != ' ' {
    }
    SafeNameRoundTrip(display);
  }

  /** A name with neither hyphens nor spaces is its own display name and its own
      duplicate base. */
  lemma PlainName(name: string)
    requires '-' !in name && ' ' !in name
    ensures ToDisplayName(name) == name && DupeBase(name) == name
  {
    assert IndexOf(name, ' ') == |name|;
  }

  /** The names produced for the first three drops of one module: with m
      instances already active, the next one is named with suffix m. */
  lemma {:induction false} RepeatedDrops(name: string, suffix: string)
    requires '-' !in name && ' ' !in name
    ensures DupeCount([], DupeBase(name)) == 0
    ensures DisplayName(name, 0) == name
    ensures DupeCount([name], DupeBase(name)) == 1
    ensures DisplayName(name, 1) == name + " (1)"
    ensures DupeCount([name, name + "-" + suffix], DupeBase(name)) == 2
    ensures DisplayName(name, 2) == name + " (2)"
  {
    PlainName(name);
    assert Decimal.FromNat(1) == "1" && Decimal.FromNat(2) == "2";
    assert [name, name + "-" + suffix][..1] == [name];
    assert name + "-" <= name + "-" + suffix;
  }

  /** The count also selects other modules whose name extends this one after
      a space: dropping "Foo" while "Foo Bar" (item name "Foo-Bar") is active
      counts one duplicate, so the new instance is a clone named "Foo (1)". */
  lemma LongerNameCountsAsDuplicate(name: string, rest: string)
    requires '-' !in name && ' ' !in name
    ensures DupeCount([name + "-" + rest], DupeBase(name)) == 1
    ensures DisplayName(name, 1) == name + " (1)"
  {
    RepeatedDrops(name, rest);
    assert name + "-" <= name + "-" + rest;
  }

  /** Every clone is counted by later drops: for a gallery name without
      spaces (hyphens allowed), the safe name the clone's item carries matches
      the duplicate query of the name it was cloned from. */
  lemma CloneIsCounted(name: string, dupes: nat)
    requires ' ' !in name && dupes > 0
    ensures DashMatch(ToSafeName(DisplayName(name, dupes)), DupeBase(name))
  {
    assert IndexOf(name, ' ') == |name|;
    DisplayNameRoundTrip(name);
    var display := DisplayName(name, dupes);
    var safe := ToSafeName(display);
    assert display == ToDisplayName(name) + " (" + Decimal.FromNat(dupes) + ")";
    forall i | 0 <= i < |name| ensures safe[i] == name[i] {
      assert display[i] == ToDisplayName(name)[i];
      assert ToSafeName(ToDisplayName(name))[i] == name[i];
    }
    assert safe[..|name|] == name;
    assert safe[|name|] == '-';
  }

  /** The count is not a uniqueness guarantee: once the first instance has left
      the active list, the next drop reproduces the safe name of an instance
      that is still active. */
  lemma CountCanReuseActiveName(name: string)
    requires '-' !in name && ' ' !in name
    ensures DupeCount([name + "-(1)"], DupeBase(name)) == 1
    ensures ToSafeName(DisplayName(name, 1)) == name + "-(1)"
  {
    RepeatedDrops(name, "(1)");
    assert name + "-" <= name + "-(1)";
    var display := name + " (1)";
    var r := ToSafeName(display);
    ReplaceAllChar(display, ' ', '-');
    forall i | 0 <= i < |r| ensures r[i] == (name + "-(1)")[i] {
      if i < |name| {
        assert display[i] == name[i];
      }
    }
  }
}
