/** String operations the client relies on: substring containment
    (`str::contains` with a string pattern) and the lexicographic order of
    Rust's `Ord for str`, with the facts that make the latter a strict total
    order. */
module Text {

  /** `p` occurs in `s` starting at index `i`. */
  predicate OccursAt(p: string, s: string, i: int) {
    0 <= i && i + |p| <= |s| && s[i..i + |p|] == p
  }

  /** `p` occurs somewhere in `s` as a contiguous block. */
  ghost predicate Occurs(p: string, s: string) {
    exists i :: OccursAt(p, s, i)
  }

  /** An occurrence of `p` in `s[1..]` is an occurrence in `s` one place further on, and
      every occurrence in `s` other than at index 0 arises this way. */
  lemma OccursShift(p: string, s: string)
    requires |s| > 0
    ensures Occurs(p, s) <==> OccursAt(p, s, 0) || Occurs(p, s[1..])
  {
    if Occurs(p, s) && !OccursAt(p, s, 0) {
      var i :| OccursAt(p, s, i);
      assert s[1..][i - 1..i - 1 + |p|] == s[i..i + |p|];
      assert OccursAt(p, s[1..], i - 1);
    }
    if Occurs(p, s[1..]) {
      var i :| OccursAt(p, s[1..], i);
      assert s[1..][i..i + |p|] == s[i + 1..i + 1 + |p|];
      assert OccursAt(p, s, i + 1);
    }
  }

  /** `s.contains(p)`: a left-to-right search for `p` in `s`. */
  function Contains(s: string, p: string): (b: bool)
    ensures b <==> Occurs(p, s)
    decreases |s|
  {
    if |p| > |s| then
      assert !Occurs(p, s) by {
        forall i | 0 <= i ensures !OccursAt(p, s, i) { }
      }
      false
    else if s[..|p|] == p then
      assert OccursAt(p, s, 0);
      true
    else
      OccursShift(p, s);
      Contains(s[1..], p)
  }

  /** Every character of a block that occurs in `s` is a character of `s`;
      used to rule out occurrences by a single missing character. */
  lemma OccursCharacters(p: string, s: string, c: char)
    requires Occurs(p, s)
    requires c in p
    ensures c in s
  {
    var i :| OccursAt(p, s, i);
    var j :| 0 <= j < |p| && p[j] == c;
    assert s[i..i + |p|][j] == s[i + j];
  }

  /** `a < b` under Rust's `Ord for str`, which compares the UTF-8 bytes
      lexicographically, a proper prefix ordering before its extensions. The
      model compares characters (Unicode scalar values) instead: UTF-8 is
      built so that byte order and code-point order agree, so the two
      comparisons give the same answer. */
  predicate LexLess(a: string, b: string)
    decreases |a|
  {
    if |a| == 0 then |b| > 0
    else if |b| == 0 then false
    else if a[0] != b[0] then a[0] < b[0]
    else LexLess(a[1..], b[1..])
  }

  lemma {:induction false} LexIrreflexive(a: string)
    ensures !LexLess(a, a)
    decreases |a|
  {
    if |a| > 0 {
      LexIrreflexive(a[1..]);
    }
  }

  lemma {:induction false} LexTransitive(a: string, b: string, c: string)
    requires LexLess(a, b) && LexLess(b, c)
    ensures LexLess(a, c)
    decreases |a|
  {
    if |a| > 0 && a[0] == b[0] && b[0] == c[0] {
      LexTransitive(a[1..], b[1..], c[1..]);
    }
  }

  /** Any two distinct strings are ordered one way or the other. */
  lemma {:induction false} LexTotal(a: string, b: string)
    requires a != b
    ensures LexLess(a, b) || LexLess(b, a)
    decreases |a|
  {
    if |a| > 0 && |b| > 0 && a[0] == b[0] {
      assert a == [a[0]] + a[1..] && b == [b[0]] + b[1..];
      LexTotal(a[1..], b[1..]);
    }
  }

  lemma {:induction false} LexAsymmetric(a: string, b: string)
    requires LexLess(a, b)
    ensures !LexLess(b, a)
    decreases |a|
  {
    if |a| > 0 && a[0] == b[0] {
      LexAsymmetric(a[1..], b[1..]);
    }
  }

  /** Concatenations with equally long heads are equal iff heads and tails are. */
  lemma ConcatInjective(a1: string, a2: string, b1: string, b2: string)
    requires |a1| == |b1|
    ensures a1 + a2 == b1 + b2 <==> a1 == b1 && a2 == b2
  {
    assert (a1 + a2)[..|a1|] == a1 && (a1 + a2)[|a1|..] == a2;
    assert (b1 + b2)[..|b1|] == b1 && (b1 + b2)[|b1|..] == b2;
  }

  /** Comparing two concatenations whose first parts have equal length: the
      first parts decide, and only on a tie do the second parts. */
  lemma {:induction false} LexConcat(a1: string, a2: string, b1: string, b2: string)
    requires |a1| == |b1|
    ensures LexLess(a1 + a2, b1 + b2) <==> LexLess(a1, b1) || (a1 == b1 && LexLess(a2, b2))
    decreases |a1|
  {
    if |a1| == 0 {
      assert a1 + a2 == a2 && b1 + b2 == b2;
    } else {
      assert (a1 + a2)[0] == a1[0] && (b1 + b2)[0] == b1[0];
      assert (a1 + a2)[1..] == a1[1..] + a2 && (b1 + b2)[1..] == b1[1..] + b2;
      LexConcat(a1[1..], a2, b1[1..], b2);
      if a1[0] == b1[0] {
        assert a1 == b1 <==> a1[1..] == b1[1..] by {
          assert a1 == [a1[0]] + a1[1..] && b1 == [b1[0]] + b1[1..];
        }
      }
    }
  }
}
