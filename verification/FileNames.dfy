/** Segment file names and the order in which the index directory is loaded. */
module FileNames {

  function Digit(d: nat): (c: char)
    requires d < 10
    ensures '0' <= c <= '9'
  {
    '0' + d as char
  }

  /** `std::to_string` of a segment number. */
  function Decimal(n: nat): (s: string)
    ensures |s| > 0
    ensures forall i | 0 <= i < |s| :: '0' <= s[i] <= '9'
  {
    if n < 10 then [Digit(n)] else Decimal(n / 10) + [Digit(n % 10)]
  }

  /** "index_" and "segment_" are the two prefixes in use. */
  function FileName(prefix: string, i: nat): string {
    prefix + Decimal(i) + ".bin"
  }

  function IndexName(i: nat): string {
    FileName("index_", i)
  }

  /** Lexicographic order, which paths in one directory compare by. */
  predicate LexLess(a: string, b: string) {
    if b == [] then false
    else if a == [] then true
    else if a[0] != b[0] then a[0] < b[0]
    else LexLess(a[1..], b[1..])
  }

  lemma {:induction false} LexPrefix(p: string, a: string, b: string)
    ensures LexLess(p + a, p + b) <==> LexLess(a, b)
  {
    if p == [] {
      assert p + a == a && p + b == b;
    } else {
      assert (p + a)[1..] == p[1..] + a && (p + b)[1..] == p[1..] + b;
      LexPrefix(p[1..], a, b);
    }
  }

  lemma {:induction false} LexIrreflexive(a: string)
    ensures !LexLess(a, a)
  {
    if a != [] {
      LexIrreflexive(a[1..]);
    }
  }

  /** For strings of equal length a common ending decides only on a tie. */
  lemma {:induction false} LexEqualLength(a: string, b: string, x: string, y: string)
    requires |a| == |b|
    ensures LexLess(a + x, b + y) <==> LexLess(a, b) || (a == b && LexLess(x, y))
  {
    if a == [] {
      assert a + x == x && b + y == y;
    } else {
      assert (a + x)[1..] == a[1..] + x && (b + y)[1..] == b[1..] + y;
      LexEqualLength(a[1..], b[1..], x, y);
      assert a == [a[0]] + a[1..] && b == [b[0]] + b[1..];
    }
  }

  lemma {:induction false} DecimalInjective(i: nat, j: nat)
    requires Decimal(i) == Decimal(j)
    ensures i == j
    decreases i + j
  {
    var a, b := Decimal(i), Decimal(j);
    assert a[|a| - 1] == Digit(i % 10) && b[|b| - 1] == Digit(j % 10);
    if i >= 10 && j >= 10 {
      assert Decimal(i / 10) == a[..|a| - 1] && Decimal(j / 10) == b[..|b| - 1];
      DecimalInjective(i / 10, j / 10);
    }
  }

  /** Numbers of equally many digits compare like their digit strings. */
  lemma {:induction false} DecimalOrder(i: nat, j: nat)
    requires |Decimal(i)| == |Decimal(j)|
    ensures LexLess(Decimal(i), Decimal(j)) <==> i < j
    decreases i + j
  {
    if i >= 10 && j >= 10 {
      DecimalOrder(i / 10, j / 10);
      LexEqualLength(Decimal(i / 10), Decimal(j / 10), [Digit(i % 10)], [Digit(j % 10)]);
      if Decimal(i / 10) == Decimal(j / 10) {
        DecimalInjective(i / 10, j / 10);
      }
      assert LexLess([Digit(i % 10)], [Digit(j % 10)]) <==> i % 10 < j % 10;
    }
  }

  /** Segment file names of equally many digits sort as their numbers do. */
  lemma NameOrder(i: nat, j: nat)
    requires |Decimal(i)| == |Decimal(j)|
    ensures LexLess(IndexName(i), IndexName(j)) <==> i < j
  {
    var a, b := Decimal(i), Decimal(j);
    assert IndexName(i) == "index_" + (a + ".bin") && IndexName(j) == "index_" + (b + ".bin");
    LexPrefix("index_", a + ".bin", b + ".bin");
    LexEqualLength(a, b, ".bin", ".bin");
    LexIrreflexive(".bin");
    DecimalOrder(i, j);
  }

  /** No two segments share a file. */
  lemma NameInjective(prefix: string, i: nat, j: nat)
    requires FileName(prefix, i) == FileName(prefix, j)
    ensures i == j
  {
    var a, b, n := Decimal(i), Decimal(j), |prefix|;
    assert |a| == |b|;
    assert FileName(prefix, i)[n..n + |a|] == a && FileName(prefix, j)[n..n + |b|] == b;
    DecimalInjective(i, j);
  }

  /** The number that a string of digits denotes. */
  function Denoted(s: string): int {
    if s == [] then 0 else 10 * Denoted(s[..|s| - 1]) + (s[|s| - 1] as int - '0' as int)
  }

  /** `Decimal` writes the number it is given, without leading zeros. */
  lemma {:induction false} DecimalDenotes(n: nat)
    ensures Denoted(Decimal(n)) == n
    ensures Decimal(n)[0] == '0' ==> n == 0
  {
    if n >= 10 {
      DecimalDenotes(n / 10);
      assert Decimal(n)[..|Decimal(n)| - 1] == Decimal(n / 10);
    } else {
      assert Decimal(n)[..0] == [];
    }
  }

  /** Two names in full. */
  lemma NamesInFull()
    ensures IndexName(0) == "index_0.bin" && IndexName(12) == "index_12.bin"
    ensures FileName("segment_", 7) == "segment_7.bin"
  {
    assert Decimal(12) == Decimal(1) + [Digit(2)];
  }

  // ----- The directory scan -----

  /** `order` lists the segments 0..n-1 as a scan sorted by path visits them. */
  ghost predicate PathOrder(order: seq<nat>, n: nat) {
    && (forall i :: i in order <==> 0 <= i < n)
    && (forall i, j | 0 <= i < j < |order| :: LexLess(IndexName(order[i]), IndexName(order[j])))
  }

  lemma PathOrderDistinct(order: seq<nat>, n: nat)
    requires PathOrder(order, n)
    ensures forall i, j | 0 <= i < j < |order| :: order[i] != order[j]
  {
    forall i, j | 0 <= i < j < |order| ensures order[i] != order[j] {
      LexIrreflexive(IndexName(order[i]));
    }
  }

  lemma {:induction false} IncreasingIsIdentity(order: seq<nat>, n: nat, i: nat)
    requires forall x :: x in order <==> 0 <= x < n
    requires forall a, b | 0 <= a < b < |order| :: order[a] < order[b]
    requires i <= |order|
    ensures i <= n && forall a | 0 <= a < i :: order[a] == a
  {
    if i > 0 {
      IncreasingIsIdentity(order, n, i - 1);
      assert order[i - 1] in order;
      assert forall a | 0 <= a < i - 1 :: order[a] < order[i - 1];
      assert i > 1 ==> order[i - 2] < order[i - 1];
      assert i - 1 in order;
      var p :| 0 <= p < |order| && order[p] == i - 1;
    }
  }

  /** The scan visits the segments in the order of their creation exactly as long
      as there are no more than ten. */
  lemma LoadOrderIsCreationOrder(order: seq<nat>, n: nat)
    requires PathOrder(order, n)
    ensures (|order| == n && forall i | 0 <= i < n :: order[i] == i) <==> n <= 10
  {
    if n <= 10 {
      forall i, j | 0 <= i < j < |order| ensures order[i] < order[j] {
        assert order[i] in order && order[j] in order;
        NameOrder(order[i], order[j]);
      }
      IncreasingIsIdentity(order, n, |order|);
      assert |order| in order <==> |order| < n;
    } else {
      TenBeforeTwo();
      assert |order| == n ==> LexLess(IndexName(order[2]), IndexName(order[10]));
    }
  }

  /** From the eleventh segment on, segment 10 is loaded before segment 2. */
  lemma TenBeforeTwo()
    ensures LexLess(IndexName(10), IndexName(2)) && !LexLess(IndexName(2), IndexName(10))
  {
    assert Decimal(10) == Decimal(1) + [Digit(0)] == "10";
    assert Decimal(2) == "2";
    assert IndexName(10) == "index_" + "10.bin" && IndexName(2) == "index_" + "2.bin";
    LexPrefix("index_", "10.bin", "2.bin");
    LexPrefix("index_", "2.bin", "10.bin");
  }

  // ----- Every set of segments has a scan order -----

  lemma {:induction false} LexTransitive(a: string, b: string, c: string)
    requires LexLess(a, b) && LexLess(b, c)
    ensures LexLess(a, c)
  {
    if a != [] && a[0] == b[0] && b[0] == c[0] {
      LexTransitive(a[1..], b[1..], c[1..]);
    }
  }

  lemma {:induction false} LexTotal(a: string, b: string)
    requires a != b
    ensures LexLess(a, b) || LexLess(b, a)
  {
    if a != [] && b != [] && a[0] == b[0] {
      assert a == [a[0]] + a[1..] && b == [b[0]] + b[1..];
      LexTotal(a[1..], b[1..]);
    }
  }

  ghost predicate NameSorted(order: seq<nat>) {
    order != [] ==>
      (forall i | i in order[1..] :: LexLess(IndexName(order[0]), IndexName(i))) && NameSorted(order[1..])
  }

  function InsertName(order: seq<nat>, n: nat): seq<nat> {
    if order == [] || LexLess(IndexName(n), IndexName(order[0])) then [n] + order
    else [order[0]] + InsertName(order[1..], n)
  }

  lemma {:induction false} InsertNameElements(order: seq<nat>, n: nat, x: nat)
    ensures x in InsertName(order, n) <==> x in order || x == n
  {
    if order != [] {
      assert order == [order[0]] + order[1..];
      InsertNameElements(order[1..], n, x);
    }
  }

  lemma {:induction false} InsertNameSorted(order: seq<nat>, n: nat)
    requires NameSorted(order) && n !in order
    ensures NameSorted(InsertName(order, n))
  {
    hide IndexName;
    if order != [] {
      assert order == [order[0]] + order[1..];
      var r := InsertName(order, n);
      if LexLess(IndexName(n), IndexName(order[0])) {
        assert r[1..] == order;
        forall i | i in order ensures LexLess(IndexName(n), IndexName(i)) {
          if i != order[0] {
            LexTransitive(IndexName(n), IndexName(order[0]), IndexName(i));
          }
        }
      } else {
        assert r[1..] == InsertName(order[1..], n);
        InsertNameSorted(order[1..], n);
        NamesDiffer(n, order[0]);
        LexTotal(IndexName(n), IndexName(order[0]));
        forall i | i in r[1..] ensures LexLess(IndexName(order[0]), IndexName(i)) {
          InsertNameElements(order[1..], n, i);
        }
      }
    }
  }

  lemma NamesDiffer(i: nat, j: nat)
    requires i != j
    ensures IndexName(i) != IndexName(j)
  {
    if IndexName(i) == IndexName(j) {
      NameInjective("index_", i, j);
    }
  }

  lemma {:induction false} SortedPairs(order: seq<nat>, i: nat, j: nat)
    requires NameSorted(order) && i < j < |order|
    ensures LexLess(IndexName(order[i]), IndexName(order[j]))
  {
    hide IndexName;
    if i == 0 {
      assert order[1..][j - 1] in order[1..];
    } else {
      SortedPairs(order[1..], i - 1, j - 1);
    }
  }

  function ScanOf(n: nat): seq<nat> {
    if n == 0 then [] else InsertName(ScanOf(n - 1), n - 1)
  }

  lemma {:induction false} ScanOfSorted(n: nat)
    ensures NameSorted(ScanOf(n)) && forall i :: i in ScanOf(n) <==> 0 <= i < n
  {
    hide InsertName;
    if n > 0 {
      ScanOfSorted(n - 1);
      InsertNameSorted(ScanOf(n - 1), n - 1);
      forall i ensures i in ScanOf(n) <==> 0 <= i < n {
        if i >= 0 {
          InsertNameElements(ScanOf(n - 1), n - 1, i);
        }
      }
    }
  }

  /** There is a path order for any number of segments. */
  lemma PathOrderExists(n: nat)
    ensures PathOrder(ScanOf(n), n)
  {
    hide ScanOf, IndexName;
    ScanOfSorted(n);
    forall i, j | 0 <= i < j < |ScanOf(n)|
      ensures LexLess(IndexName(ScanOf(n)[i]), IndexName(ScanOf(n)[j]))
    {
      SortedPairs(ScanOf(n), i, j);
    }
  }
}
