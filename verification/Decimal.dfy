/**
 Numbers as the decimal strings JavaScript makes of them: the keys of the opening maps
 (`localIndexToString` of src/sdk/utils/IndexConverter.ts and the set key of
 src/sdk/paramManagers/TreeManager.ts), and the order in which `Array.prototype.sort` without a comparator
 puts numbers (src/sdk/accountReaders/StorageAccountReader.ts:103).
 */
module Decimal {

  const DIGITS: string := "0123456789"

  function Dec(n: nat): (s: string)
    ensures s != []
  {
    if n < 10 then [DIGITS[n]] else Dec(n / 10) + [DIGITS[n % 10]]
  }

  function DigitValue(c: char): int { c as int - '0' as int }

  function Value(s: string): int {
    if s == [] then 0 else Value(s[..|s| - 1]) * 10 + DigitValue(s[|s| - 1])
  }

  lemma DigitValues(d: nat)
    requires d < 10
    ensures DigitValue(DIGITS[d]) == d && '0' <= DIGITS[d] <= '9'
  {
    assert DIGITS[0] == '0' && DIGITS[1] == '1' && DIGITS[2] == '2' && DIGITS[3] == '3' && DIGITS[4] == '4';
    assert DIGITS[5] == '5' && DIGITS[6] == '6' && DIGITS[7] == '7' && DIGITS[8] == '8' && DIGITS[9] == '9';
  }

  lemma {:induction false} ValueOfDec(n: nat)
    ensures Value(Dec(n)) == n
  {
    DigitValues(n % 10);
    if n < 10 {
      assert Value([]) == 0;
      assert Dec(n)[..0] == [];
    } else {
      ValueOfDec(n / 10);
      assert Dec(n)[..|Dec(n)| - 1] == Dec(n / 10);
    }
  }

  lemma DecInjective(a: nat, b: nat)
    requires Dec(a) == Dec(b)
    ensures a == b
  {
    ValueOfDec(a);
    ValueOfDec(b);
  }

  lemma {:induction false} DecDigits(n: nat)
    ensures forall i :: 0 <= i < |Dec(n)| ==> '0' <= Dec(n)[i] <= '9'
  {
    DigitValues(n % 10);
    if n >= 10 { DecDigits(n / 10); }
  }

  // ---------------------------------------------------------------- keys

  /** Two numbers as one string, with a separator between them. */
  function Key(a: nat, separator: char, b: nat): string { Dec(a) + [separator] + Dec(b) }

  /** With a separator that is no digit, different pairs have different keys. */
  lemma KeyInjective(a: nat, b: nat, c: nat, d: nat, separator: char)
    requires !('0' <= separator <= '9') && Key(a, separator, b) == Key(c, separator, d)
    ensures a == c && b == d
  {
    var s, m, k := Key(a, separator, b), |Dec(a)|, |Dec(c)|;
    DecDigits(a);
    DecDigits(c);
    assert s[m] == separator && s[k] == separator;
    assert forall i :: 0 <= i < m ==> s[i] == Dec(a)[i] != separator;
    assert forall i :: 0 <= i < k ==> s[i] == Dec(c)[i] != separator;
    assert m == k;
    assert s[..m] == Dec(a) && s[..k] == Dec(c) && s[m + 1..] == Dec(b) && s[k + 1..] == Dec(d);
    DecInjective(a, c);
    DecInjective(b, d);
  }

  // ---------------------------------------------------------------- the default order of sort

  /** Order of strings by code units. */
  predicate LexLe(a: string, b: string) {
    a == [] || (b != [] && (a[0] < b[0] || (a[0] == b[0] && LexLe(a[1..], b[1..]))))
  }

  lemma {:induction false} LexReflexive(a: string)
    ensures LexLe(a, a)
  {
    if a != [] { LexReflexive(a[1..]); }
  }

  lemma {:induction false} LexTotal(a: string, b: string)
    ensures LexLe(a, b) || LexLe(b, a)
  {
    if a != [] && b != [] && a[0] == b[0] { LexTotal(a[1..], b[1..]); }
  }

  lemma {:induction false} LexTransitive(a: string, b: string, c: string)
    requires LexLe(a, b) && LexLe(b, c)
    ensures LexLe(a, c)
  {
    if a != [] && a[0] == b[0] == c[0] { LexTransitive(a[1..], b[1..], c[1..]); }
  }

  lemma {:induction false} LexAntisymmetric(a: string, b: string)
    requires LexLe(a, b) && LexLe(b, a)
    ensures a == b
  {
    if a != [] {
      LexAntisymmetric(a[1..], b[1..]);
      assert a == [a[0]] + a[1..] && b == [b[0]] + b[1..];
    }
  }

  predicate DecLe(a: nat, b: nat) { LexLe(Dec(a), Dec(b)) }

  function InsertDecimal(x: nat, s: seq<nat>): (r: seq<nat>)
    ensures |r| == |s| + 1
  {
    if s == [] then [x] else if DecLe(x, s[0]) then [x] + s else [s[0]] + InsertDecimal(x, s[1..])
  }

  /** `sort()` on numbers, without a comparator. */
  function SortDecimal(s: seq<nat>): (r: seq<nat>)
    ensures |r| == |s|
  {
    if s == [] then [] else InsertDecimal(s[0], SortDecimal(s[1..]))
  }

  ghost predicate DecSorted(s: seq<nat>) { forall i, j :: 0 <= i < j < |s| ==> DecLe(s[i], s[j]) }

  ghost predicate Ascending(s: seq<nat>) { forall i, j :: 0 <= i < j < |s| ==> s[i] <= s[j] }

  lemma {:induction false} InsertDecimalKeeps(x: nat, s: seq<nat>)
    requires DecSorted(s)
    ensures DecSorted(InsertDecimal(x, s)) && |InsertDecimal(x, s)| == |s| + 1
    ensures forall y :: y in InsertDecimal(x, s) <==> y == x || y in s
  {
    if s == [] {
    } else if DecLe(x, s[0]) {
      forall i | 0 <= i < |s| ensures DecLe(x, s[i]) {
        LexReflexive(Dec(s[0]));
        LexTransitive(Dec(x), Dec(s[0]), Dec(s[i]));
      }
    } else {
      var rest := InsertDecimal(x, s[1..]);
      assert DecSorted(s[1..]) by { assert forall i :: 0 <= i < |s[1..]| ==> s[1..][i] == s[i + 1]; }
      InsertDecimalKeeps(x, s[1..]);
      LexTotal(Dec(x), Dec(s[0]));
      assert forall y :: y in s <==> y == s[0] || y in s[1..];
      forall i | 0 <= i < |rest| ensures DecLe(s[0], rest[i]) {
        assert rest[i] in rest;
        if rest[i] != x {
          var j :| 0 <= j < |s[1..]| && s[1..][j] == rest[i];
          assert s[j + 1] == rest[i];
        }
      }
    }
  }

  lemma {:induction false} SortDecimalKeeps(s: seq<nat>)
    ensures DecSorted(SortDecimal(s)) && |SortDecimal(s)| == |s|
    ensures forall y :: y in SortDecimal(s) <==> y in s
  {
    if s != [] {
      SortDecimalKeeps(s[1..]);
      InsertDecimalKeeps(s[0], SortDecimal(s[1..]));
      assert forall y :: y in s <==> y == s[0] || y in s[1..];
    }
  }

  /** How many entries are below `v`. */
  function CountBelow(s: seq<nat>, v: nat): nat {
    if s == [] then 0 else (if s[0] < v then 1 else 0) + CountBelow(s[1..], v)
  }

  lemma {:induction false} InsertDecimalCount(x: nat, s: seq<nat>, v: nat)
    ensures CountBelow(InsertDecimal(x, s), v) == CountBelow(s, v) + if x < v then 1 else 0
  {
    if s != [] && !DecLe(x, s[0]) {
      InsertDecimalCount(x, s[1..], v);
      assert InsertDecimal(x, s)[1..] == InsertDecimal(x, s[1..]);
    } else {
      assert InsertDecimal(x, s)[1..] == s;
    }
  }

  /** Sorting keeps the entries: as many below any bound as before. */
  lemma {:induction false} SortDecimalCount(s: seq<nat>, v: nat)
    ensures CountBelow(SortDecimal(s), v) == CountBelow(s, v)
  {
    if s != [] {
      SortDecimalCount(s[1..], v);
      InsertDecimalCount(s[0], SortDecimal(s[1..]), v);
    }
  }

  /**
   The default sort puts numbers in ascending order exactly when their decimal strings are ordered like the numbers.
   */
  lemma AscendingExactly(s: seq<nat>)
    ensures Ascending(SortDecimal(s)) <==> forall a, b :: a in s && b in s && a <= b ==> DecLe(a, b)
  {
    var t := SortDecimal(s);
    SortDecimalKeeps(s);
    assert forall i :: 0 <= i < |t| ==> t[i] in t && t[i] in s;
    if Ascending(t) {
      forall a, b | a in s && b in s && a <= b
        ensures DecLe(a, b)
      {
        var i :| 0 <= i < |t| && t[i] == a;
        var j :| 0 <= j < |t| && t[j] == b;
        if a == b { LexReflexive(Dec(a)); }
      }
    } else if forall a, b :: a in s && b in s && a <= b ==> DecLe(a, b) {
      var i, j :| 0 <= i < j < |t| && t[i] > t[j];
      assert t[j] in s && t[i] in s && DecLe(t[j], t[i]) && DecLe(t[i], t[j]);
      LexAntisymmetric(Dec(t[i]), Dec(t[j]));
      DecInjective(t[i], t[j]);
    }
  }

  // ---------------------------------------------------------------- sorting depends on the contents only

  lemma {:induction false} InsertDecimalContents(x: nat, s: seq<nat>)
    ensures multiset(InsertDecimal(x, s)) == multiset(s) + multiset{x}
  {
    if s != [] && !DecLe(x, s[0]) {
      InsertDecimalContents(x, s[1..]);
      assert s == [s[0]] + s[1..];
    }
  }

  lemma {:induction false} SortDecimalContents(s: seq<nat>)
    ensures multiset(SortDecimal(s)) == multiset(s)
  {
    if s != [] {
      SortDecimalContents(s[1..]);
      InsertDecimalContents(s[0], SortDecimal(s[1..]));
      assert s == [s[0]] + s[1..];
    }
  }

  lemma SameHead(s: seq<nat>, t: seq<nat>)
    requires DecSorted(s) && DecSorted(t) && multiset(s) == multiset(t) && s != [] && t != []
    ensures s[0] == t[0]
  {
    assert s[0] in multiset(t) && t[0] in multiset(s);
    var i :| 0 <= i < |t| && t[i] == s[0];
    var j :| 0 <= j < |s| && s[j] == t[0];
    if i > 0 && j > 0 {
      LexAntisymmetric(Dec(s[0]), Dec(t[0]));
      DecInjective(s[0], t[0]);
    }
  }

  lemma {:induction false} SortedIsUnique(s: seq<nat>, t: seq<nat>)
    requires DecSorted(s) && DecSorted(t) && multiset(s) == multiset(t)
    ensures s == t
  {
    if s == [] || t == [] {
      assert |multiset(s)| == |s| && |multiset(t)| == |t|;
    } else {
      SameHead(s, t);
      assert s == [s[0]] + s[1..] && t == [t[0]] + t[1..];
      assert multiset(s[1..]) == multiset(s) - multiset{s[0]};
      assert multiset(t[1..]) == multiset(t) - multiset{t[0]};
      SortedIsUnique(s[1..], t[1..]);
    }
  }

  /** In whatever order numbers are given, the default sort puts them in the same order. */
  lemma SortsAlike(s: seq<nat>, t: seq<nat>)
    requires multiset(s) == multiset(t)
    ensures SortDecimal(s) == SortDecimal(t)
  {
    SortDecimalKeeps(s);
    SortDecimalKeeps(t);
    SortDecimalContents(s);
    SortDecimalContents(t);
    SortedIsUnique(SortDecimal(s), SortDecimal(t));
  }

  // ---------------------------------------------------------------- strings of equal length

  lemma {:induction false} LexAppend(a: string, b: string, x: char, y: char)
    requires |a| == |b|
    ensures LexLe(a + [x], b + [y]) <==> if a == b then x <= y else LexLe(a, b)
  {
    if a == [] {
      assert a + [x] == [x] && b + [y] == [y];
    } else {
      LexAppend(a[1..], b[1..], x, y);
      assert (a + [x])[1..] == a[1..] + [x] && (b + [y])[1..] == b[1..] + [y];
      assert a == [a[0]] + a[1..] && b == [b[0]] + b[1..];
    }
  }

  /** Numbers with equally many digits compare like their strings. */
  lemma {:induction false} SameLengthAgrees(a: nat, b: nat)
    requires |Dec(a)| == |Dec(b)|
    ensures DecLe(a, b) <==> a <= b
  {
    DigitValues(a % 10);
    DigitValues(b % 10);
    if a < 10 {
      assert b < 10;
      LexAppend("", "", DIGITS[a], DIGITS[b]);
      assert Dec(a) == "" + [DIGITS[a]] && Dec(b) == "" + [DIGITS[b]];
      assert DIGITS[a] <= DIGITS[b] <==> a <= b;
    } else {
      assert b >= 10;
      SameLengthAgrees(a / 10, b / 10);
      LexAppend(Dec(a / 10), Dec(b / 10), DIGITS[a % 10], DIGITS[b % 10]);
      if Dec(a / 10) == Dec(b / 10) { DecInjective(a / 10, b / 10); }
    }
  }

  /** So equally long start indices are sorted as the scan expects. */
  lemma SameLengthAscends(s: seq<nat>)
    requires forall a, b :: a in s && b in s ==> |Dec(a)| == |Dec(b)|
    ensures Ascending(SortDecimal(s))
  {
    forall a, b | a in s && b in s && a <= b
      ensures DecLe(a, b)
    {
      SameLengthAgrees(a, b);
    }
    AscendingExactly(s);
  }

  lemma {:induction false} DigitsGrow(a: nat, b: nat)
    requires a <= b
    ensures |Dec(a)| <= |Dec(b)|
  {
    if a >= 10 { DigitsGrow(a / 10, b / 10); }
  }

  lemma {:induction false} LexCut(a: string, b: string, x: char)
    requires |a| <= |b| && LexLe(a, b + [x])
    ensures LexLe(a, b)
  {
    if a != [] {
      assert (b + [x])[0] == b[0] && (b + [x])[1..] == b[1..] + [x];
      if a[0] == b[0] { LexCut(a[1..], b[1..], x); }
    }
  }

  /** A number with fewer digits that is sorted before another is at most a tenth of it. */
  lemma {:induction false} TenTimes(z: nat, d: nat)
    requires |Dec(z)| < |Dec(d)| && DecLe(z, d)
    ensures 10 * z <= d
  {
    LexCut(Dec(z), Dec(d / 10), DIGITS[d % 10]);
    if |Dec(z)| == |Dec(d / 10)| {
      SameLengthAgrees(z, d / 10);
    } else {
      TenTimes(z, d / 10);
    }
  }

  /** What is sorted before a number that is out of place is far below it. */
  lemma OutOfPlace(z: nat, y: nat, d: nat)
    requires DecLe(z, d) && DecLe(d, y) && z <= y < d
    ensures 10 * z <= d && d >= 10
  {
    DigitsGrow(z, y);
    DigitsGrow(y, d);
    if |Dec(y)| == |Dec(d)| { SameLengthAgrees(d, y); }
    TenTimes(z, d);
  }

  /** But 10000 comes before 9999. */
  lemma TenThousandFirst()
    ensures SortDecimal([9999, 10000]) == [10000, 9999]
    ensures !Ascending(SortDecimal([9999, 10000]))
  {
    assert Dec(10000)[0] == '1' by {
      assert Dec(1) == "1" && Dec(10)[0] == '1' && Dec(100)[0] == '1' && Dec(1000)[0] == '1';
    }
    assert Dec(9999)[0] == '9' by {
      assert Dec(9) == "9" && Dec(99)[0] == '9' && Dec(999)[0] == '9';
    }
    assert !DecLe(9999, 10000);
    assert [9999, 10000][1..] == [10000] && [10000][1..] == [] && SortDecimal([10000]) == [10000];
    assert InsertDecimal(9999, [10000]) == [10000] + InsertDecimal(9999, []);
    assert [10000, 9999][0] > [10000, 9999][1];
  }
}
