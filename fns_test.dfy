/** The cases of fns_test.go, stated about the reference definitions that
    the methods of module Fns are proved to compute. */
module FnsTest {
  import opened Fns

  /** strings.HasPrefix(s, prefix). */
  predicate HasPrefix(s: string, prefix: string) {
    prefix <= s
  }

  /** Unique on a slice of four distinct values, the second and the first
      of them repeated before the last. */
  lemma DeduplicatedRepeats<T>(ss: seq<T>, a: T, b: T, c: T, d: T)
    requires a != b && a != c && a != d && b != c && b != d && c != d
    requires ss == [a, b, c, b, a, d]
    ensures Deduplicated(ss) == [a, b, c, d]
  {
    assert Deduplicated(ss[..1]) == [a];
    assert Deduplicated(ss[..2]) == [a, b] by { assert ss[..2][..1] == ss[..1]; }
    assert Deduplicated(ss[..3]) == [a, b, c] by { assert ss[..3][..2] == ss[..2]; }
    assert Deduplicated(ss[..4]) == [a, b, c] by { assert ss[..4][..3] == ss[..3]; }
    assert Deduplicated(ss[..5]) == [a, b, c] by { assert ss[..5][..4] == ss[..4]; }
    assert ss[..6][..5] == ss[..5] && ss[..6] == ss;
  }

  /** TestUnique: the repeated "b" and "a" are dropped, first occurrences kept. */
  lemma UniqueExample(ss: seq<string>)
    requires ss == ["a", "b", "c", "b", "a", "cc"]
    ensures Deduplicated(ss) == ["a", "b", "c", "cc"]
  {
    assert "a" != "b" by { assert "a"[0] != "b"[0]; }
    assert "a" != "c" by { assert "a"[0] != "c"[0]; }
    assert "b" != "c" by { assert "b"[0] != "c"[0]; }
    assert "cc" != "a" && "cc" != "b" && "cc" != "c";
    DeduplicatedRepeats(ss, "a", "b", "c", "cc");
  }

  /** TestFilterParam: the elements with prefix "b". */
  lemma FilterParamExample(ss: seq<string>)
    requires ss == ["a", "b", "c", "bc"]
    ensures Filtered(ss, WithParam(HasPrefix, "b")) == ["b", "bc"]
  {
    var f := WithParam(HasPrefix, "b");
    assert forall v :: f(v) == HasPrefix(v, "b");
    assert !f("a") by { assert "a"[0] != "b"[0]; }
    assert !f("c") by { assert "c"[0] != "b"[0]; }
    assert f("b") && f("bc");
    assert Filtered(ss[..1], f) == [];
    assert Filtered(ss[..2], f) == ["b"] by { assert ss[..2][..1] == ss[..1]; }
    assert Filtered(ss[..3], f) == ["b"] by { assert ss[..3][..2] == ss[..2]; }
    assert ss[..4][..3] == ss[..3] && ss[..4] == ss;
  }
}
