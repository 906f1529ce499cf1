/**
 * Byte strings and the order Go's `<` gives them. A `char` stands for one byte.
 */
module ByteOrder {

  /** Lexicographic order on byte strings. */
  predicate Less(a: string, b: string) {
    if |b| == 0 then false
    else if |a| == 0 then true
    else a[0] < b[0] || (a[0] == b[0] && Less(a[1..], b[1..]))
  }

  lemma LessIrreflexive(a: string)
    ensures !Less(a, a)
  {
  }

  lemma LessTransitive(a: string, b: string, c: string)
    requires Less(a, b) && Less(b, c)
    ensures Less(a, c)
  {
  }

  lemma LessTotal(a: string, b: string)
    ensures a == b || Less(a, b) || Less(b, a)
  {
    if |a| > 0 && |b| > 0 && a[0] == b[0] {
      LessTotal(a[1..], b[1..]);
      assert a == [a[0]] + a[1..] && b == [b[0]] + b[1..];
    }
  }

  /** A common prefix does not change the order. */
  lemma LessUnderPrefix(p: string, a: string, b: string)
    requires Less(a, b)
    ensures Less(p + a, p + b)
  {
    if |p| == 0 {
      assert p + a == a && p + b == b;
    } else {
      LessUnderPrefix(p[1..], a, b);
      assert (p + a)[1..] == p[1..] + a && (p + b)[1..] == p[1..] + b;
    }
  }

  /** A proper prefix comes first. */
  lemma PrefixIsLess(a: string, u: string)
    requires |u| > 0
    ensures Less(a, a + u)
  {
    LessUnderPrefix(a, "", u);
    assert a + "" == a;
  }

  /** Two strings that already differ keep their order under any extension. */
  lemma LessExtends(a: string, b: string, u: string, v: string)
    requires Less(a, b) && !(a <= b)
    ensures Less(a + u, b + v)
  {
    if a[0] == b[0] {
      assert a[1..] <= b[1..] ==> a <= b;
      LessExtends(a[1..], b[1..], u, v);
      assert (a + u)[1..] == a[1..] + u && (b + v)[1..] == b[1..] + v;
    }
  }
}
