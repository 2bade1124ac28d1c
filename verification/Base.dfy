/** Vocabulary shared by the models: optional values, clock readings and the order of text columns. */
module Base {

  datatype Option<+T> = None | Some(value: T)

  /** Seconds, as the source's floats; rounding plays no part in any result. */
  type Time = real

  /** SQLite's order on TEXT values: first difference decides, a prefix comes first. */
  predicate LexLeq(a: string, b: string)
  {
    a == [] || (b != [] && (a[0] < b[0] || (a[0] == b[0] && LexLeq(a[1..], b[1..]))))
  }

  lemma {:induction false} LexLeqAntisymmetric(a: string, b: string)
    requires LexLeq(a, b) && LexLeq(b, a)
    ensures a == b
  {
    if a == [] || b == [] {
    } else {
      LexLeqAntisymmetric(a[1..], b[1..]);
      assert a == [a[0]] + a[1..] && b == [b[0]] + b[1..];
    }
  }

  lemma {:induction false} LexLeqTransitive(a: string, b: string, c: string)
    requires LexLeq(a, b) && LexLeq(b, c)
    ensures LexLeq(a, c)
  {
    if a != [] && a[0] == b[0] == c[0] {
      LexLeqTransitive(a[1..], b[1..], c[1..]);
    }
  }

  lemma {:induction false} LexLeqTotal(a: string, b: string)
    ensures LexLeq(a, b) || LexLeq(b, a)
  {
    if a != [] && b != [] {
      LexLeqTotal(a[1..], b[1..]);
    }
  }

  /** A shared prefix does not influence the order. */
  lemma {:induction false} LexLeqAfterPrefix(prefix: string, a: string, b: string)
    ensures LexLeq(prefix + a, prefix + b) <==> LexLeq(a, b)
  {
    if prefix == [] {
      assert prefix + a == a && prefix + b == b;
    } else {
      assert (prefix + a)[1..] == prefix[1..] + a && (prefix + b)[1..] == prefix[1..] + b;
      LexLeqAfterPrefix(prefix[1..], a, b);
    }
  }
}
