/** The names workers give to result batches: the task key, a colon and the batch index,
    zero-padded to eight digits (src/lowpower_llm_cluster/distributed_runtime.py:397). */
module BatchNames {
  import opened Base

  const PAD_LIMIT: nat := 100_000_000

  function Digit(d: nat): (c: char)
    requires d < 10
  {
    '0' + d as char
  }

  /** The last `width` decimal digits of n. */
  function LowDigits(n: nat, width: nat): (s: string)
    ensures |s| == width
  {
    if width == 0 then "" else LowDigits(n / 10, width - 1) + [Digit(n % 10)]
  }

  /** Digits beyond the eighth: nothing below 10^8, else the plain decimal text. */
  function Overflow(n: nat): string
  {
    if n == 0 then "" else Overflow(n / 10) + [Digit(n % 10)]
  }

  /** Python's `{n:08d}`: eight digits, more when the number needs them. */
  function Pad8(n: nat): (s: string)
    ensures |s| >= 8
  {
    Overflow(n / PAD_LIMIT) + LowDigits(n, 8)
  }

  function BatchId(key: string, index: nat): string
  {
    key + ":" + Pad8(index)
  }

  /** Reading decimal text back. */
  function Value(s: string): int
  {
    if s == "" then 0 else 10 * Value(s[..|s| - 1]) + (s[|s| - 1] as int - '0' as int)
  }

  lemma {:induction false} ValueOfLowDigits(n: nat, width: nat, prefix: string)
    ensures Value(prefix + LowDigits(n, width)) == Value(prefix) * Pow10(width) + n % Pow10(width)
  {
    if width == 0 {
      assert prefix + "" == prefix;
    } else {
      var s := prefix + LowDigits(n, width);
      assert s[..|s| - 1] == prefix + LowDigits(n / 10, width - 1);
      ValueOfLowDigits(n / 10, width - 1, prefix);
      ShiftDigit(Value(prefix), n, Pow10(width - 1));
    }
  }

  lemma ShiftDigit(v: int, n: nat, p: nat)
    requires p > 0
    ensures 10 * (v * p + n / 10 % p) + n % 10 == v * (10 * p) + n % (10 * p)
  {
    ModSplit(n, p);
    assert v * (10 * p) == 10 * (v * p);
  }

  function Pow10(k: nat): (p: nat)
    ensures p > 0
  {
    if k == 0 then 1 else 10 * Pow10(k - 1)
  }

  lemma ModSplit(n: nat, p: nat)
    requires p > 0
    ensures n % (10 * p) == 10 * (n / 10 % p) + n % 10
  {
    var q, r := n / 10, n % 10;
    var a, b := q / p, q % p;
    assert n == a * (10 * p) + (10 * b + r) by {
      assert q == a * p + b;
    }
    assert 0 <= 10 * b + r < 10 * p;
    UniqueRemainder(n, 10 * p, a, 10 * b + r);
  }

  lemma UniqueRemainder(n: nat, d: nat, a: nat, r: nat)
    requires d > 0 && n == a * d + r && r < d
    ensures n % d == r
  {
    var a' := n / d;
    if a < a' {
      Scaled(a + 1, a', d);
    } else if a' < a {
      Scaled(a' + 1, a, d);
    }
  }

  lemma Scaled(x: nat, y: nat, d: nat)
    requires x <= y
    ensures x * d <= y * d
  {
    assert (y - x) * d >= 0;
  }

  lemma {:induction false} ValueOfOverflow(n: nat)
    ensures Value(Overflow(n)) == n
  {
    if n != 0 {
      var s := Overflow(n);
      assert s[..|s| - 1] == Overflow(n / 10);
      ValueOfOverflow(n / 10);
    }
  }

  /** Padding loses nothing: the text reads back as the index. */
  lemma Pad8RoundTrip(n: nat)
    ensures Value(Pad8(n)) == n
  {
    ValueOfOverflow(n / PAD_LIMIT);
    ValueOfLowDigits(n, 8, Overflow(n / PAD_LIMIT));
    assert Pow10(8) == PAD_LIMIT by {
      assert Pow10(4) == 10_000;
    }
  }

  lemma BatchIdInjective(key: string, i: nat, j: nat)
    requires BatchId(key, i) == BatchId(key, j)
    ensures i == j
  {
    assert BatchId(key, i)[|key| + 1..] == Pad8(i);
    assert BatchId(key, j)[|key| + 1..] == Pad8(j);
    Pad8RoundTrip(i);
    Pad8RoundTrip(j);
  }

  lemma {:induction false} LowDigitsOrder(i: nat, j: nat, width: nat)
    requires i < Pow10(width) && j < Pow10(width)
    ensures LexLeq(LowDigits(i, width), LowDigits(j, width)) <==> i <= j
  {
    if width > 0 {
      var p, q := i / 10, j / 10;
      LowDigitsOrder(p, q, width - 1);
      LowDigitsDiffer(p, q, width - 1);
      LexLeqLastDigit(LowDigits(p, width - 1), Digit(i % 10), LowDigits(q, width - 1), Digit(j % 10));
      assert p < q ==> i < j;
      assert q < p ==> j < i;
    }
  }

  lemma ValueOfLowDigitsAlone(n: nat, width: nat)
    requires n < Pow10(width)
    ensures Value(LowDigits(n, width)) == n
  {
    ValueOfLowDigits(n, width, "");
    assert "" + LowDigits(n, width) == LowDigits(n, width);
    SmallRemainder(n, Pow10(width));
  }

  lemma SmallRemainder(n: nat, p: nat)
    requires n < p
    ensures n % p == n
  {
  }

  lemma LowDigitsDiffer(i: nat, j: nat, width: nat)
    requires i < Pow10(width) && j < Pow10(width)
    ensures LowDigits(i, width) == LowDigits(j, width) <==> i == j
  {
    ValueOfLowDigitsAlone(i, width);
    ValueOfLowDigitsAlone(j, width);
  }

  lemma {:induction false} LexLeqLastDigit(a: string, c: char, b: string, d: char)
    requires |a| == |b|
    ensures LexLeq(a + [c], b + [d]) <==> if a == b then c <= d else LexLeq(a, b)
  {
    if a == [] {
    } else {
      assert (a + [c])[1..] == a[1..] + [c] && (b + [d])[1..] == b[1..] + [d];
      assert a == [a[0]] + a[1..] && b == [b[0]] + b[1..];
      LexLeqLastDigit(a[1..], c, b[1..], d);
    }
  }

  ghost predicate NamesSortAsNumbers(key: string, n: nat)
  {
    forall i, j :: 0 <= i <= j < n ==> LexLeq(BatchId(key, i), BatchId(key, j))
  }

  /** Batch names of one task sort in index order exactly while there are at most 10^8 of them:
      the name for 100000000 has nine digits and sorts before 99999999. */
  lemma NamesSortAsNumbersExactly(key: string, n: nat)
    ensures NamesSortAsNumbers(key, n) <==> n <= PAD_LIMIT
  {
    assert Pow10(8) == PAD_LIMIT by {
      assert Pow10(4) == 10_000;
    }
    if n <= PAD_LIMIT {
      forall i, j | 0 <= i <= j < n
        ensures LexLeq(BatchId(key, i), BatchId(key, j))
      {
        assert Pad8(i) == LowDigits(i, 8) && Pad8(j) == LowDigits(j, 8);
        LowDigitsOrder(i, j, 8);
        LexLeqAfterPrefix(key + ":", Pad8(i), Pad8(j));
      }
    } else {
      NineDigitsSortFirst(key);
      var i, j := PAD_LIMIT - 1, PAD_LIMIT;
      assert 0 <= i <= j < n && !LexLeq(BatchId(key, i), BatchId(key, j));
    }
  }

  lemma NineDigitsSortFirst(key: string)
    ensures !LexLeq(BatchId(key, 99_999_999), BatchId(key, 100_000_000))
  {
    var last, next := Pad8(99_999_999), Pad8(100_000_000);
    assert Overflow(1) == "1" by {
      assert Overflow(0) == "";
    }
    assert next[0] == '1';
    LeadingNine();
    assert Overflow(0) == "" && last == LowDigits(99_999_999, 8);
    LexLeqAfterPrefix(key + ":", last, next);
  }

  lemma LeadingNine()
    ensures LowDigits(99_999_999, 8)[0] == '9'
  {
    FirstOfLowDigits(99_999_999, 7);
    assert Pow10(7) == 10_000_000 by {
      assert Pow10(4) == 10_000;
    }
  }

  lemma {:induction false} FirstOfLowDigits(n: nat, k: nat)
    ensures LowDigits(n, k + 1)[0] == Digit(n / Pow10(k) % 10)
  {
    if k > 0 {
      FirstOfLowDigits(n / 10, k - 1);
      DivSplit(n, Pow10(k - 1));
    }
  }

  lemma DivSplit(n: nat, p: nat)
    requires p > 0
    ensures n / 10 / p == n / (10 * p)
  {
    var q, r := n / 10, n % 10;
    var a, b := q / p, q % p;
    assert n == a * (10 * p) + (10 * b + r) by {
      assert q == a * p + b;
    }
    UniqueRemainder(n, 10 * p, a, 10 * b + r);
    var a' := n / (10 * p);
    assert (a - a') * (10 * p) == 0;
    assert a == a';
  }

  // ---------------------------------------------------------------- by example

  /** The form of a name: the twelfth batch of task "c:s". */
  lemma TwelfthBatch()
    ensures BatchId("c:s", 12) == "c:s:00000012"
  {
    assert LowDigits(12, 8) == "00000012" by {
      assert LowDigits(0, 6) == "000000" by {
        assert LowDigits(0, 3) == "000";
        assert LowDigits(0, 4) == "0000";
        assert LowDigits(0, 5) == "00000";
      }
      assert LowDigits(1, 7) == LowDigits(0, 6) + [Digit(1)];
      assert LowDigits(12, 8) == LowDigits(1, 7) + [Digit(2)];
    }
    assert Overflow(12 / PAD_LIMIT) == "";
  }
}
