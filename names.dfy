/** String substitution as the user interface performs it: the JavaScript idioms
    `s.split(op).join(rep)` (the `replaceAll` helper) and `s.replace(pat, rep)`
    with a string pattern (which replaces the first occurrence only). */
module Names {

  /** `s.split(sep)` with a string separator: the pieces between the leftmost
      non-overlapping occurrences of `sep`, scanning left to right. An empty
      separator splits `s` into its single characters (here Unicode scalar
      values, where JavaScript uses UTF-16 code units). */
  function Split(s: string, sep: string): (parts: seq<string>)
    ensures sep != [] ==> |parts| >= 1
    ensures sep == [] ==> |parts| == |s|
    decreases |s|
  {
    if sep == [] then seq(|s|, i requires 0 <= i < |s| => [s[i]])
    else if |s| < |sep| then [s]
    else if s[..|sep|] == sep then [[]] + Split(s[|sep|..], sep)
    else
      var rest := Split(s[1..], sep);
      [[s[0]] + rest[0]] + rest[1..]
  }

  /** Total length of a list of strings. */
  function TotalLength(parts: seq<string>): nat
  {
    if parts == [] then 0 else |parts[0]| + TotalLength(parts[1..])
  }

  /** `parts.join(sep)`: the pieces in order with one separator between each
      neighbouring pair, so the result is as long as the pieces together plus
      one separator fewer than there are pieces. */
  function Join(parts: seq<string>, sep: string): (s: string)
    ensures |parts| >= 1 ==> |s| == TotalLength(parts) + (|parts| - 1) * |sep|
    ensures |parts| >= 1 ==> parts[0] <= s
  {
    if |parts| == 0 then []
    else if |parts| == 1 then parts[0]
    else parts[0] + sep + Join(parts[1..], sep)
  }

  /** The `replaceAll(string, operator, replacement)` helper: split, then join.
      For a non-empty operator it is the left-to-right substitution. */
  function ReplaceAll(s: string, op: string, rep: string): (r: string)
    ensures op != [] ==> r == Substitute(s, op, rep)
  {
    if op == [] then Join(Split(s, op), rep)
    else
      SplitJoinIsSubstitute(s, op, rep);
      Join(Split(s, op), rep)
  }

  /** Reference definition of substitution: scan left to right and replace
      every occurrence of `op` that does not overlap an earlier one. */
  function Substitute(s: string, op: string, rep: string): string
    requires op != []
    decreases |s|
  {
    if |s| < |op| then s
    else if s[..|op|] == op then rep + Substitute(s[|op|..], op, rep)
    else [s[0]] + Substitute(s[1..], op, rep)
  }

  predicate OccursAt(s: string, pat: string, i: int)
  {
    0 <= i && i + |pat| <= |s| && s[i..i + |pat|] == pat
  }

  predicate Contains(s: string, pat: string)
  {
    exists i :: 0 <= i <= |s| && OccursAt(s, pat, i)
  }

  lemma OccursAtSingle(s: string, c: char, i: int)
    ensures OccursAt(s, [c], i) <==> 0 <= i < |s| && s[i] == c
  {
    if 0 <= i < |s| {
      assert s[i..i + 1] == [s[i]];
    }
  }

  lemma ContainsSingle(s: string, c: char)
    ensures Contains(s, [c]) <==> c in s
  {
    if c in s {
      var i :| 0 <= i < |s| && s[i] == c;
      OccursAtSingle(s, c, i);
    }
    if Contains(s, [c]) {
      var i :| OccursAt(s, [c], i);
      OccursAtSingle(s, c, i);
    }
  }

  /** Joining a list whose first piece has `x` in front puts `x` in front of the join. */
  lemma JoinPrepend(x: string, parts: seq<string>, sep: string)
    requires |parts| >= 1
    ensures Join([x + parts[0]] + parts[1..], sep) == x + Join(parts, sep)
  {
    var ps := [x + parts[0]] + parts[1..];
    if |parts| > 1 {
      assert ps[1..] == parts[1..];
    }
  }

  /** Splitting on `op` and joining with `rep` performs exactly the
      left-to-right substitution. */
  lemma {:induction false} SplitJoinIsSubstitute(s: string, op: string, rep: string)
    requires op != []
    ensures Join(Split(s, op), rep) == Substitute(s, op, rep)
    decreases |s|
  {
    if |s| < |op| {
      assert Split(s, op) == [s];
    } else if s[..|op|] == op {
      var rest := Split(s[|op|..], op);
      assert Split(s, op) == [[]] + rest;
      SplitJoinIsSubstitute(s[|op|..], op, rep);
      var ps := [[]] + rest;
      assert ps[1..] == rest;
      assert Join(ps, rep) == [] + rep + Join(rest, rep);
      assert Substitute(s, op, rep) == rep + Substitute(s[|op|..], op, rep);
    } else {
      var rest := Split(s[1..], op);
      assert Split(s, op) == [[s[0]] + rest[0]] + rest[1..];
      SplitJoinIsSubstitute(s[1..], op, rep);
      JoinPrepend([s[0]], rest, rep);
      assert Substitute(s, op, rep) == [s[0]] + Substitute(s[1..], op, rep);
    }
  }

  lemma {:induction false} SubstituteWithoutOccurrence(s: string, op: string, rep: string)
    requires op != []
    ensures !Contains(s, op) ==> Substitute(s, op, rep) == s
    decreases |s|
  {
    if |s| < |op| {
    } else if s[..|op|] == op {
      assert OccursAt(s, op, 0);
    } else {
      SubstituteWithoutOccurrence(s[1..], op, rep);
      if Contains(s[1..], op) {
        var i :| 0 <= i <= |s[1..]| && OccursAt(s[1..], op, i);
        assert 0 <= i && i + |op| <= |s| - 1;
        assert s[1..][i..i + |op|] == s[i + 1..i + 1 + |op|];
        assert OccursAt(s, op, i + 1);
      }
    }
  }

  /** A string in which the operator does not occur comes back unchanged. */
  lemma ReplaceAllWithoutOperator(s: string, op: string, rep: string)
    requires op != [] && !Contains(s, op)
    ensures ReplaceAll(s, op, rep) == s
  {
    SubstituteWithoutOccurrence(s, op, rep);
  }

  /** Splitting on a non-empty separator and joining with it gives the string back. */
  lemma {:induction false} SplitJoinInverse(s: string, sep: string)
    requires sep != []
    ensures Join(Split(s, sep), sep) == s
    decreases |s|
  {
    SplitJoinIsSubstitute(s, sep, sep);
    SubstituteSelf(s, sep);
  }

  lemma {:induction false} SubstituteSelf(s: string, op: string)
    requires op != []
    ensures Substitute(s, op, op) == s
    decreases |s|
  {
    if |s| < |op| {
    } else if s[..|op|] == op {
      SubstituteSelf(s[|op|..], op);
      assert s == s[..|op|] + s[|op|..];
    } else {
      SubstituteSelf(s[1..], op);
      assert s == [s[0]] + s[1..];
    }
  }

  lemma {:induction false} SubstituteCharsFrom(s: string, op: string, rep: string)
    requires |op| == 1
    ensures forall x :: x in Substitute(s, op, rep) ==> x in rep || (x in s && x != op[0])
    decreases |s|
  {
    if |s| == 0 {
    } else {
      SubstituteCharsFrom(s[1..], op, rep);
      assert s[..1] == [s[0]] && op == [op[0]];
      forall x | x in s[1..] ensures x in s {
        var i :| 0 <= i < |s[1..]| && s[1..][i] == x;
        assert s[i + 1] == x;
      }
    }
  }

  /** For a one-character operator: every character of the result comes from the
      replacement or is a character of `s` other than the operator, so when the
      replacement does not contain the operator neither does the result. */
  lemma ReplaceAllRemovesOperator(s: string, op: string, rep: string)
    requires |op| == 1
    ensures forall x :: x in ReplaceAll(s, op, rep) ==> x in rep || (x in s && x != op[0])
    ensures !Contains(rep, op) ==> !Contains(ReplaceAll(s, op, rep), op)
  {
    SubstituteCharsFrom(s, op, rep);
    assert op == [op[0]];
    ContainsSingle(rep, op[0]);
    ContainsSingle(ReplaceAll(s, op, rep), op[0]);
  }

  /** With a longer operator the previous property fails: the replacement can
      complete a new occurrence. */
  lemma LongOperatorCanSurvive()
    ensures ReplaceAll("aaa", "aa", "a") == "aa"
  {
    assert "aaa"[..2] == "aa" && "aaa"[2..] == "a";
    assert Split("a", "aa") == ["a"];
    assert Split("aaa", "aa") == [[], "a"];
  }

  lemma {:induction false} SubstituteChar(s: string, c: char, d: char)
    ensures |Substitute(s, [c], [d])| == |s|
    ensures forall i :: 0 <= i < |s| ==> Substitute(s, [c], [d])[i] == (if s[i] == c then d else s[i])
    decreases |s|
  {
    if |s| > 0 {
      SubstituteChar(s[1..], c, d);
      assert s[..1] == [s[0]];
      var r := Substitute(s, [c], [d]);
      assert r == [if s[0] == c then d else s[0]] + Substitute(s[1..], [c], [d]);
      forall i | 0 < i < |s| ensures r[i] == (if s[i] == c then d else s[i]) {
        assert s[1..][i - 1] == s[i];
      }
    }
  }

  /** Replacing one character by one character maps the string character by
      character: same length, each occurrence of `c` becomes `d`, nothing else moves. */
  lemma ReplaceAllChar(s: string, c: char, d: char)
    ensures |ReplaceAll(s, [c], [d])| == |s|
    ensures forall i :: 0 <= i < |s| ==> ReplaceAll(s, [c], [d])[i] == (if s[i] == c then d else s[i])
  {
    SubstituteChar(s, c, d);
  }

  /** `s.replace(pat, rep)` with a string pattern: only the leftmost occurrence
      is replaced; an empty pattern matches at the start. */
  function ReplaceFirst(s: string, pat: string, rep: string): (r: string)
    ensures |pat| == |rep| ==> |r| == |s|
    ensures pat != [] && |s| < |pat| ==> r == s
    decreases |s|
  {
    if pat == [] then rep + s
    else if |s| < |pat| then s
    else if s[..|pat|] == pat then rep + s[|pat|..]
    else [s[0]] + ReplaceFirst(s[1..], pat, rep)
  }

  /** Position of the first `c` in `s`, or `|s|` when there is none. */
  function IndexOf(s: string, c: char): (k: nat)
    ensures k <= |s|
    ensures forall j :: 0 <= j < k ==> s[j] != c
    ensures k < |s| ==> s[k] == c
  {
    if s == [] then 0
    else if s[0] == c then 0
    else 1 + IndexOf(s[1..], c)
  }

  /** With one-character pattern and replacement, `replace` changes exactly the
      first occurrence of the pattern and leaves every later one in place. */
  lemma {:induction false} ReplaceFirstChar(s: string, c: char, d: char)
    ensures ReplaceFirst(s, [c], [d]) ==
      (var k := IndexOf(s, c); if k == |s| then s else s[..k] + [d] + s[k + 1..])
    decreases |s|
  {
    if |s| > 0 {
      assert s[..1] == [s[0]];
      if s[0] == c {
        assert IndexOf(s, c) == 0;
        assert ReplaceFirst(s, [c], [d]) == [d] + s[1..];
      } else {
        assert ReplaceFirst(s, [c], [d]) == [s[0]] + ReplaceFirst(s[1..], [c], [d]);
        ReplaceFirstChar(s[1..], c, d);
        var k := IndexOf(s[1..], c);
        assert IndexOf(s, c) == k + 1;
        if k < |s[1..]| {
          assert s[..k + 1] == [s[0]] + s[1..][..k];
          assert s[k + 2..] == s[1..][k + 1..];
        } else {
          assert s == [s[0]] + s[1..];
        }
      }
    }
  }
}
