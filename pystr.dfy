/** The few operations of Python's `str` that the registry queries rely on:
    `lower()`, the `in` operator (substring test), and the ordering used by `sorted`. */
module PyStr {

  /** `str.lower()` on one character, ASCII letters only. */
  function LowerChar(c: char): char
  {
    if 'A' <= c <= 'Z' then (c as int + 32) as char else c
  }

  /** `s.lower()`: every ASCII capital replaced by its small letter, everything else kept. */
  function Lower(s: string): (r: string)
    ensures |r| == |s|
    ensures forall i :: 0 <= i < |r| ==> !('A' <= r[i] <= 'Z')
    ensures forall i :: 0 <= i < |s| && !('A' <= s[i] <= 'Z') ==> r[i] == s[i]
    ensures forall i :: 0 <= i < |s| && 'A' <= s[i] <= 'Z' ==> r[i] as int == s[i] as int + 32
  {
    seq(|s|, i requires 0 <= i < |s| => LowerChar(s[i]))
  }

  /** Lowering twice is lowering once. */
  lemma LowerIdempotent(s: string)
    ensures Lower(Lower(s)) == Lower(s)
  {
    var l := Lower(s);
    assert forall i :: 0 <= i < |l| ==> LowerChar(l[i]) == l[i];
  }

  /** `needle` occurs in `hay` starting at offset `i`. */
  predicate OccursAt(hay: string, needle: string, i: int)
  {
    0 <= i && i + |needle| <= |hay| && hay[i..i + |needle|] == needle
  }

  /** Python's `needle in hay` for two strings. */
  predicate Contains(hay: string, needle: string)
    decreases |hay|
  {
    (|needle| <= |hay| && hay[..|needle|] == needle) || (hay != [] && Contains(hay[1..], needle))
  }

  /** `Contains` is exactly "occurs at some offset". */
  lemma {:induction false} ContainsIffOccurs(hay: string, needle: string)
    ensures Contains(hay, needle) <==> exists i :: OccursAt(hay, needle, i)
    decreases |hay|
  {
    if Contains(hay, needle) {
      if |needle| <= |hay| && hay[..|needle|] == needle {
        assert OccursAt(hay, needle, 0);
      } else {
        ContainsIffOccurs(hay[1..], needle);
        var i :| OccursAt(hay[1..], needle, i);
        assert hay[1..][i..i + |needle|] == hay[i + 1..i + 1 + |needle|];
        assert OccursAt(hay, needle, i + 1);
      }
    }
    if exists i :: OccursAt(hay, needle, i) {
      var i :| OccursAt(hay, needle, i);
      if i == 0 {
        assert hay[..|needle|] == needle;
      } else {
        assert hay[1..][i - 1..i - 1 + |needle|] == hay[i..i + |needle|];
        assert OccursAt(hay[1..], needle, i - 1);
        ContainsIffOccurs(hay[1..], needle);
      }
    }
  }

  /** A string longer than `hay` is not in it. */
  lemma {:induction false} LongerIsNotContained(hay: string, needle: string)
    requires |hay| < |needle|
    ensures !Contains(hay, needle)
    decreases |hay|
  {
    if hay != [] {
      LongerIsNotContained(hay[1..], needle);
    }
  }

  /** The empty string is in every string, as in Python. */
  lemma EmptyIsEverywhere(hay: string)
    ensures Contains(hay, "")
  {
  }

  /** `query.lower() in text.lower()`: the case-insensitive match the search uses. */
  predicate ContainsIgnoringCase(text: string, query: string)
  {
    Contains(Lower(text), Lower(query))
  }

  /** Python's `a <= b` on strings: code points compared left to right, a proper prefix first. */
  predicate LessEq(a: string, b: string)
    decreases |a|
  {
    a == [] || (b != [] && (a[0] < b[0] || (a[0] == b[0] && LessEq(a[1..], b[1..]))))
  }

  lemma {:induction false} LessEqReflexive(a: string)
    ensures LessEq(a, a)
    decreases |a|
  {
    if a != [] {
      LessEqReflexive(a[1..]);
    }
  }

  lemma {:induction false} LessEqAntisymmetric(a: string, b: string)
    requires LessEq(a, b) && LessEq(b, a)
    ensures a == b
    decreases |a|
  {
    if a != [] {
      LessEqAntisymmetric(a[1..], b[1..]);
      assert a == [a[0]] + a[1..] && b == [b[0]] + b[1..];
    }
  }

  lemma {:induction false} LessEqTransitive(a: string, b: string, c: string)
    requires LessEq(a, b) && LessEq(b, c)
    ensures LessEq(a, c)
    decreases |a|
  {
    if a != [] && a[0] == b[0] && b[0] == c[0] {
      LessEqTransitive(a[1..], b[1..], c[1..]);
    }
  }

  lemma {:induction false} LessEqTotal(a: string, b: string)
    ensures LessEq(a, b) || LessEq(b, a)
    decreases |a|
  {
    if a != [] && b != [] && a[0] == b[0] {
      LessEqTotal(a[1..], b[1..]);
    }
  }

  /** Raising the bound of an upper bound keeps it an upper bound. */
  lemma RaiseUpperBound(ks: seq<string>, m: string, m': string)
    requires forall k :: k in ks ==> LessEq(k, m)
    requires LessEq(m, m')
    ensures forall k :: k in ks ==> LessEq(k, m')
  {
    forall k | k in ks
      ensures LessEq(k, m')
    {
      LessEqTransitive(k, m, m');
    }
  }

  /** `sorted(ks)[-1]`: the greatest string of a non-empty list in code-point order. */
  function Max(ks: seq<string>): (m: string)
    requires ks != []
    ensures m in ks
    ensures forall k :: k in ks ==> LessEq(k, m)
    decreases |ks|
  {
    if |ks| == 1 then
      LessEqReflexive(ks[0]);
      ks[0]
    else
      var rest := Max(ks[1..]);
      LessEqReflexive(ks[0]);
      LessEqTotal(ks[0], rest);
      assert forall k :: k in ks ==> k == ks[0] || k in ks[1..];
      if LessEq(ks[0], rest) then
        rest
      else
        RaiseUpperBound(ks[1..], rest, ks[0]);
        ks[0]
  }

  /** Only one element of a list is an upper bound of it: whatever `sorted` does
      with ties, its last element is `Max`. */
  lemma MaxIsUnique(ks: seq<string>, m: string)
    requires m in ks
    requires forall k :: k in ks ==> LessEq(k, m)
    ensures m == Max(ks)
  {
    LessEqAntisymmetric(m, Max(ks));
  }
}
