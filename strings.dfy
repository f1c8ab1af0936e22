/** Go's `strings.Split` with a one-character separator, and the inverse join
    (the shape of `path.Join` on clean segments). */
module Strings {

  /** `strings.Split(s, [sep])`: the maximal runs of `s` between separators,
      in order.  A string without the separator splits into itself, and the
      empty string splits into one empty part, so the result is never empty. */
  function Split(s: string, sep: char): (parts: seq<string>)
    ensures |parts| >= 1
    ensures forall i :: 0 <= i < |parts| ==> sep !in parts[i]
  {
    if |s| == 0 then [""]
    else
      var rest := Split(s[1..], sep);
      if s[0] == sep then [""] + rest
      else [[s[0]] + rest[0]] + rest[1..]
  }

  /** The parts written out with `sep` between consecutive ones. */
  function Join(parts: seq<string>, sep: char): (s: string)
    requires |parts| >= 1
    ensures |s| >= |parts[0]| + |parts| - 1
    ensures s[..|parts[0]|] == parts[0]
    ensures |parts| > 1 ==> s[|parts[0]|] == sep
  {
    if |parts| == 1 then parts[0]
    else parts[0] + [sep] + Join(parts[1..], sep)
  }

  /** The joined string holds at least one separator per extra segment,
      exactly one when no segment contains the separator. */
  lemma {:induction false} JoinCountsSeparators(parts: seq<string>, sep: char)
    requires |parts| >= 1
    ensures multiset(Join(parts, sep))[sep] >= |parts| - 1
    ensures (forall i :: 0 <= i < |parts| ==> sep !in parts[i]) ==>
              multiset(Join(parts, sep))[sep] == |parts| - 1
  {
    if |parts| > 1 {
      JoinCountsSeparators(parts[1..], sep);
      var rest := Join(parts[1..], sep);
      assert Join(parts, sep) == parts[0] + [sep] + rest;
      assert multiset(parts[0] + [sep] + rest) == multiset(parts[0]) + multiset([sep]) + multiset(rest);
      if forall i :: 0 <= i < |parts| ==> sep !in parts[i] {
        assert forall i :: 0 <= i < |parts[1..]| ==> parts[1..][i] == parts[i + 1];
        assert multiset(parts[0])[sep] == 0;
      }
    }
  }

  /** Joining what Split produced gives back the original string. */
  lemma {:induction false} JoinSplit(s: string, sep: char)
    ensures Join(Split(s, sep), sep) == s
  {
    if |s| > 0 {
      var rest := Split(s[1..], sep);
      JoinSplit(s[1..], sep);
      if s[0] == sep {
        assert Split(s, sep) == [""] + rest;
        assert ([""] + rest)[1..] == rest;
        assert s == [sep] + s[1..];
      } else {
        var parts := [[s[0]] + rest[0]] + rest[1..];
        assert Split(s, sep) == parts;
        JoinPrepend([s[0]], rest, sep);
      }
    }
  }

  /** Prefixing the first part prefixes the joined string. */
  lemma {:induction false} JoinPrepend(w: string, parts: seq<string>, sep: char)
    requires |parts| >= 1
    ensures Join([w + parts[0]] + parts[1..], sep) == w + Join(parts, sep)
  {
    var ps := [w + parts[0]] + parts[1..];
    assert ps[1..] == parts[1..];
  }

  /** A separator-free prefix sticks to the first part of the split. */
  lemma {:induction false} SplitPrefix(w: string, t: string, sep: char)
    requires sep !in w
    ensures Split(w + t, sep) == [w + Split(t, sep)[0]] + Split(t, sep)[1..]
  {
    if |w| > 0 {
      SplitPrefix(w[1..], t, sep);
      assert (w + t)[1..] == w[1..] + t;
      assert (w + t)[0] == w[0];
      assert [w[0]] + (w[1..] + Split(t, sep)[0]) == w + Split(t, sep)[0];
    } else {
      assert w + t == t;
      assert w + Split(t, sep)[0] == Split(t, sep)[0];
      assert [Split(t, sep)[0]] + Split(t, sep)[1..] == Split(t, sep);
    }
  }

  /** Splitting a join of separator-free parts gives back the parts. */
  lemma {:induction false} SplitJoin(parts: seq<string>, sep: char)
    requires |parts| >= 1
    requires forall i :: 0 <= i < |parts| ==> sep !in parts[i]
    ensures Split(Join(parts, sep), sep) == parts
  {
    if |parts| == 1 {
      SplitPrefix(parts[0], "", sep);
      assert parts[0] + "" == parts[0];
    } else {
      var t := [sep] + Join(parts[1..], sep);
      SplitJoin(parts[1..], sep);
      assert Join(parts, sep) == parts[0] + t;
      SplitPrefix(parts[0], t, sep);
      assert t[0] == sep && t[1..] == Join(parts[1..], sep);
      assert Split(t, sep) == [""] + parts[1..];
      assert parts[0] + "" == parts[0];
    }
  }

  /** Three parts joined: the shape `path.Join(a, b, c)` has on clean
      segments; without separators inside, the split gives them back. */
  lemma JoinThree(a: string, b: string, c: string, sep: char)
    ensures Join([a, b, c], sep) == a + [sep] + b + [sep] + c
    ensures sep !in a && sep !in b && sep !in c ==> Split(Join([a, b, c], sep), sep) == [a, b, c]
  {
    JoinThreeShape(a, b, c, sep);
    if sep !in a && sep !in b && sep !in c {
      SplitJoin([a, b, c], sep);
    }
  }

  lemma JoinThreeShape(a: string, b: string, c: string, sep: char)
    ensures Join([a, b, c], sep) == a + [sep] + b + [sep] + c
  {
    var parts := [a, b, c];
    assert parts[1..] == [b, c];
    assert [b, c][1..] == [c];
    assert Join([b, c], sep) == b + [sep] + c;
  }

  /** A string without the separator splits into itself. */
  lemma SplitSepFree(s: string, sep: char)
    requires sep !in s
    ensures Split(s, sep) == [s]
  {
    SplitPrefix(s, "", sep);
    assert s + "" == s;
  }

  /** `e` ends `s`, and is either all of `s` or directly preceded by `sep`. */
  predicate SuffixAfterSep(s: string, e: string, sep: char) {
    |e| <= |s| && s[|s| - |e|..] == e && (|e| < |s| ==> s[|s| - |e| - 1] == sep)
  }

  /** A character in front keeps a proper suffix, or any suffix when the
      character is the separator. */
  lemma SuffixAfterSepCons(c: char, t: string, e: string, sep: char)
    requires SuffixAfterSep(t, e, sep) && (c == sep || |e| < |t|)
    ensures SuffixAfterSep([c] + t, e, sep)
  {
    var s := [c] + t;
    assert s[1..] == t;
    assert t[|t| - |e|..] == s[|s| - |e|..];
  }

  /** The last part of a split. */
  function Last(parts: seq<string>): string
    requires |parts| >= 1
  {
    parts[|parts| - 1]
  }

  /** Splitting one more character: the last part grows to the whole
      string only when the character and the rest hold no separator. */
  lemma LastOfSplitCons(s: string, sep: char)
    requires |s| > 0
    ensures Last(Split(s, sep)) ==
              if s[0] != sep && |Split(s[1..], sep)| == 1 then s else Last(Split(s[1..], sep))
  {
    var rest := Split(s[1..], sep);
    if s[0] == sep {
      var parts := [""] + rest;
      assert parts[|parts| - 1] == rest[|rest| - 1];
    } else if |rest| == 1 {
      JoinSplit(s[1..], sep);
      assert s == [s[0]] + s[1..];
    } else {
      var parts := [[s[0]] + rest[0]] + rest[1..];
      assert parts[|parts| - 1] == rest[|rest| - 1];
    }
  }

  /** The last part of a split is a suffix, and either the whole string or
      directly preceded by a separator. */
  lemma {:induction false} LastPartSuffix(s: string, sep: char)
    ensures SuffixAfterSep(s, Last(Split(s, sep)), sep)
  {
    if |s| > 0 {
      LastPartSuffix(s[1..], sep);
      LastOfSplitCons(s, sep);
      var e := Last(Split(s[1..], sep));
      assert s == [s[0]] + s[1..];
      if s[0] != sep && |Split(s[1..], sep)| == 1 {
        assert s[|s| - |s|..] == s;
      } else {
        if s[0] != sep && |e| == |s| - 1 {
          assert e == s[1..];
          SplitSepFree(s[1..], sep);
          assert false;
        }
        SuffixAfterSepCons(s[0], s[1..], e, sep);
      }
    }
  }

  /** The last part of a split is the longest separator-free suffix: it is a
      suffix, it holds no separator, and it is either the whole string or is
      directly preceded by a separator (which is then the last one). */
  lemma LastPart(s: string, sep: char)
    ensures var e := Last(Split(s, sep));
            && |e| <= |s|
            && s[|s| - |e|..] == e
            && sep !in e
            && (sep !in s <==> e == s)
            && (|e| < |s| ==> s[|s| - |e| - 1] == sep)
  {
    LastPartSuffix(s, sep);
    if sep !in s {
      SplitSepFree(s, sep);
    }
  }
}
