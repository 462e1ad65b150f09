/** String primitives the phone book relies on: the case-insensitive substring
    test used by search and the ordinal string order used to sort by name. */
module Text {

  /** Upper-casing of one character, restricted to ASCII letters: the case
      mapping that ordinal case-insensitive comparison applies before comparing. */
  function Upper(c: char): (u: char)
    ensures 'a' <= c <= 'z' ==> u as int == c as int - ('a' as int - 'A' as int)
    ensures !('a' <= c <= 'z') ==> u == c
  {
    if 'a' <= c <= 'z' then (c as int - 32) as char else c
  }

  /** Two strings of the same length that agree character by character up to case. */
  predicate SameUpToCase(a: string, b: string) {
    |a| == |b| && forall k :: 0 <= k < |a| ==> Upper(a[k]) == Upper(b[k])
  }

  /** `t` occurs in `s` starting at index `i`, comparing characters up to case. */
  predicate OccursAt(s: string, t: string, i: int) {
    0 <= i && i + |t| <= |s| && SameUpToCase(s[i..i + |t|], t)
  }

  /** Reference meaning of a case-insensitive `Contains`: some position of `s`
      starts an occurrence of `t`. */
  ghost predicate ContainsIgnoreCase(s: string, t: string) {
    exists i :: OccursAt(s, t, i)
  }

  lemma OccursAtShift(s: string, t: string, i: int)
    requires |s| > 0 && 0 <= i
    ensures OccursAt(s[1..], t, i) <==> OccursAt(s, t, i + 1)
  {
  }

  /** An occurrence in `s` starts at its first position or is an occurrence
      in the rest of `s`. */
  lemma ContainsStep(s: string, t: string)
    ensures ContainsIgnoreCase(s, t)
        <==> OccursAt(s, t, 0) || (|s| > 0 && ContainsIgnoreCase(s[1..], t))
  {
    if |s| > 0 {
      if ContainsIgnoreCase(s[1..], t) {
        var i :| OccursAt(s[1..], t, i);
        OccursAtShift(s, t, i);
      }
      if ContainsIgnoreCase(s, t) && !OccursAt(s, t, 0) {
        var i :| OccursAt(s, t, i);
        OccursAtShift(s, t, i - 1);
      }
    } else if ContainsIgnoreCase(s, t) {
      var i :| OccursAt(s, t, i);
      assert i == 0;
    }
  }

  /** Scans `s` from the left for an occurrence of `t`, ignoring case: the
      model of `Contains(t, StringComparison.OrdinalIgnoreCase)`. */
  function Find(s: string, t: string): (found: bool)
    ensures found <==> ContainsIgnoreCase(s, t)
    decreases |s|
  {
    ContainsStep(s, t);
    OccursAt(s, t, 0) || (|s| > 0 && Find(s[1..], t))
  }

  /** Case-insensitive containment is blind to the case of ASCII letters in the
      term: searching for "ANN" and for "ann" give the same answer. */
  lemma ContainsIgnoresTermCase(s: string, t: string, t': string)
    requires SameUpToCase(t, t')
    ensures ContainsIgnoreCase(s, t) <==> ContainsIgnoreCase(s, t')
  {
    if ContainsIgnoreCase(s, t) {
      var i :| OccursAt(s, t, i);
      assert OccursAt(s, t', i);
    }
    if ContainsIgnoreCase(s, t') {
      var i :| OccursAt(s, t', i);
      assert OccursAt(s, t, i);
    }
  }

  /** Ordinal order on strings: character by character by code point, a proper
      prefix sorting before the longer string. */
  predicate OrdinalLe(a: string, b: string)
    decreases |a|
  {
    || a == []
    || (&& b != []
        && (|| a[0] < b[0]
            || (a[0] == b[0] && OrdinalLe(a[1..], b[1..]))))
  }

  lemma {:induction false} OrdinalLeReflexive(a: string)
    ensures OrdinalLe(a, a)
    decreases |a|
  {
    if a != [] {
      OrdinalLeReflexive(a[1..]);
    }
  }

  lemma {:induction false} OrdinalLeTotal(a: string, b: string)
    ensures OrdinalLe(a, b) || OrdinalLe(b, a)
    decreases |a|
  {
    if a != [] && b != [] && a[0] == b[0] {
      OrdinalLeTotal(a[1..], b[1..]);
    }
  }

  lemma {:induction false} OrdinalLeTransitive(a: string, b: string, c: string)
    requires OrdinalLe(a, b) && OrdinalLe(b, c)
    ensures OrdinalLe(a, c)
    decreases |a|
  {
    if a != [] && a[0] == b[0] && b[0] == c[0] {
      OrdinalLeTransitive(a[1..], b[1..], c[1..]);
    }
  }

  lemma {:induction false} OrdinalLeAntisymmetric(a: string, b: string)
    requires OrdinalLe(a, b) && OrdinalLe(b, a)
    ensures a == b
    decreases |a|
  {
    if a != [] {
      OrdinalLeAntisymmetric(a[1..], b[1..]);
      assert a == [a[0]] + a[1..] && b == [b[0]] + b[1..];
    }
  }
}
