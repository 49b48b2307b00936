/** The game-version list of `getMinecraftVersions`: keep the tags whose type
    is "release", take their version strings, and sort them newest first with
    a comparator on dot-separated numeric components.

    The comparator reads each component with `parseInt(n) || 0`, so a
    component that is not a number counts as 0, and walks both component
    lists up to the longer length, a missing component counting as 0. The
    first position where the two differ decides, with the sign of
    `bPart - aPart`: a negative result puts the first argument first.
 */
module VersionOrder {
  import opened Text
  import Modrinth

  /** `v.split('.').map(n => parseInt(n))`, each NaN already read as 0. */
  function Components(v: string): (r: seq<int>)
    ensures |r| >= 1
  {
    var parts := Split(v, '.');
    seq(|parts|, i requires 0 <= i < |parts| => IntOrZero(parts[i]))
  }

  /** `aNum[i] || 0`: the component at position `i`, or 0 past the end. */
  function At(c: seq<int>, i: nat): int
  {
    if i < |c| then c[i] else 0
  }

  function Max(x: nat, y: nat): nat
  {
    if x < y then y else x
  }

  /** The comparator's loop from position `i` on. */
  function CompareFrom(a: seq<int>, b: seq<int>, i: nat): int
    decreases Max(|a|, |b|) - i
  {
    if i >= Max(|a|, |b|) then 0
    else if At(a, i) != At(b, i) then At(b, i) - At(a, i)
    else CompareFrom(a, b, i + 1)
  }

  /** The comparator handed to `sort`: negative puts `x` before `y`. */
  function Compare(x: string, y: string): int
  {
    CompareFrom(Components(x), Components(y), 0)
  }

  // ---------------------------------------------------------------------------
  // The comparator on component lists

  lemma {:induction false} CompareFromAntisymmetric(a: seq<int>, b: seq<int>, i: nat)
    ensures CompareFrom(a, b, i) == -CompareFrom(b, a, i)
    decreases Max(|a|, |b|) - i
  {
    if i < Max(|a|, |b|) && At(a, i) == At(b, i) {
      CompareFromAntisymmetric(a, b, i + 1);
    }
  }

  /** From position `i` on, the result is 0 exactly when the two lists agree
      at every position once both are padded with zeros. */
  lemma {:induction false} CompareFromZeroIff(a: seq<int>, b: seq<int>, i: nat)
    ensures CompareFrom(a, b, i) == 0 <==> forall j :: i <= j ==> At(a, j) == At(b, j)
    decreases Max(|a|, |b|) - i
  {
    if i < Max(|a|, |b|) {
      CompareFromZeroIff(a, b, i + 1);
      if At(a, i) == At(b, i) {
        if CompareFrom(a, b, i + 1) == 0 {
          forall j | i <= j ensures At(a, j) == At(b, j) {
            if j > i {
              assert i + 1 <= j;
            }
          }
        }
      }
    }
  }

  /** When the padded lists agree before position `k` and differ at `k`, the
      result is `At(b, k) - At(a, k)`. */
  lemma {:induction false} FirstDifferenceFrom(a: seq<int>, b: seq<int>, i: nat, k: nat)
    requires i <= k
    requires forall j :: i <= j < k ==> At(a, j) == At(b, j)
    requires At(a, k) != At(b, k)
    ensures CompareFrom(a, b, i) == At(b, k) - At(a, k)
    decreases k - i
  {
    if i < k {
      assert At(a, i) == At(b, i);
      assert k < Max(|a|, |b|);
      FirstDifferenceFrom(a, b, i + 1, k);
    } else {
      assert k < Max(|a|, |b|);
    }
  }

  /** The same walk with an explicit bound `n`, so that three lists can be
      walked in step. */
  function Walk(a: seq<int>, b: seq<int>, i: nat, n: nat): int
    decreases n - i
  {
    if i >= n then 0
    else if At(a, i) != At(b, i) then At(b, i) - At(a, i)
    else Walk(a, b, i + 1, n)
  }

  lemma {:induction false} WalkPastEnd(a: seq<int>, b: seq<int>, i: nat, n: nat)
    requires i >= Max(|a|, |b|)
    ensures Walk(a, b, i, n) == 0
    decreases n - i
  {
    if i < n {
      WalkPastEnd(a, b, i + 1, n);
    }
  }

  /** Any bound at least as long as both lists gives the comparator's result. */
  lemma {:induction false} WalkIsCompare(a: seq<int>, b: seq<int>, i: nat, n: nat)
    requires n >= Max(|a|, |b|)
    ensures Walk(a, b, i, n) == CompareFrom(a, b, i)
    decreases n - i
  {
    if i >= Max(|a|, |b|) {
      WalkPastEnd(a, b, i, n);
    } else if At(a, i) == At(b, i) {
      WalkIsCompare(a, b, i + 1, n);
    }
  }

  lemma {:induction false} WalkTransitive(a: seq<int>, b: seq<int>, c: seq<int>, i: nat, n: nat)
    requires Walk(a, b, i, n) <= 0 && Walk(b, c, i, n) <= 0
    ensures Walk(a, c, i, n) <= 0
    decreases n - i
  {
    if i < n && At(a, i) == At(b, i) && At(b, i) == At(c, i) {
      WalkTransitive(a, b, c, i + 1, n);
    }
  }

  /** "May come before" is transitive. */
  lemma CompareFromTransitive(a: seq<int>, b: seq<int>, c: seq<int>, i: nat)
    requires CompareFrom(a, b, i) <= 0 && CompareFrom(b, c, i) <= 0
    ensures CompareFrom(a, c, i) <= 0
  {
    var n := Max(Max(|a|, |b|), |c|);
    WalkIsCompare(a, b, i, n);
    WalkIsCompare(b, c, i, n);
    WalkIsCompare(a, c, i, n);
    WalkTransitive(a, b, c, i, n);
  }

  // ---------------------------------------------------------------------------
  // The comparator on version strings

  /** Swapping the arguments negates the result. */
  lemma Antisymmetric(x: string, y: string)
    ensures Compare(x, y) == -Compare(y, x)
  {
    CompareFromAntisymmetric(Components(x), Components(y), 0);
  }

  /** Every version compares equal to itself. */
  lemma Reflexive(x: string)
    ensures Compare(x, x) == 0
  {
    CompareFromZeroIff(Components(x), Components(x), 0);
  }

  lemma Transitive(x: string, y: string, z: string)
    requires Compare(x, y) <= 0 && Compare(y, z) <= 0
    ensures Compare(x, z) <= 0
  {
    CompareFromTransitive(Components(x), Components(y), Components(z), 0);
  }

  /** Two versions compare equal exactly when their zero-padded component
      lists agree everywhere: `1.20` and `1.20.0` are the same version. */
  lemma EqualIff(x: string, y: string)
    ensures Compare(x, y) == 0 <==>
            forall j: nat :: At(Components(x), j) == At(Components(y), j)
  {
    CompareFromZeroIff(Components(x), Components(y), 0);
  }

  /** The first differing component decides, newest first: the result is
      the second's component minus the first's. */
  lemma FirstDifferenceDecides(x: string, y: string, k: nat)
    requires forall j :: 0 <= j < k ==> At(Components(x), j) == At(Components(y), j)
    requires At(Components(x), k) != At(Components(y), k)
    ensures Compare(x, y) == At(Components(y), k) - At(Components(x), k)
    ensures Compare(x, y) < 0 <==> At(Components(x), k) > At(Components(y), k)
  {
    FirstDifferenceFrom(Components(x), Components(y), 0, k);
  }

  /** Adding one more component `t` to a version adds `parseInt(t) || 0`. */
  lemma ComponentsAppend(v: string, t: string)
    requires '.' !in t
    ensures Components(v + "." + t) == Components(v) + [IntOrZero(t)]
  {
    var parts := Split(v, '.');
    SplitSnoc(v, '.', t);
    var a := Components(v + "." + t);
    assert |a| == |parts| + 1;
    assert forall i :: 0 <= i < |parts| ==> a[i] == Components(v)[i];
  }

  /** Appending a zero component changes nothing in the comparison. */
  lemma {:induction false} PaddedWithZero(a: seq<int>)
    ensures CompareFrom(a, a + [0], 0) == 0
  {
    var b := a + [0];
    forall j: nat ensures At(a, j) == At(b, j) {
      if j < |a| {
        assert b[j] == a[j];
      }
    }
    CompareFromZeroIff(a, b, 0);
  }

  lemma ZeroText()
    ensures IntOrZero("0") == 0
  {
    ParseDecimal(0);
    assert DecimalOf(0) == "0";
  }

  /** A missing trailing component counts as 0: `v` and `v.0` are equal. */
  lemma TrailingZeroIsEqual(v: string)
    ensures Compare(v, v + ".0") == 0
  {
    var a := Components(v);
    assert Components(v + ".0") == a + [0] by {
      assert v + "." + "0" == v + ".0";
      ComponentsAppend(v, "0");
      ZeroText();
    }
    PaddedWithZero(a);
  }

  /** A trailing component that is not a number (`1.20.pre`) reads as 0 and
      makes no difference: the comparison never fails on such input. */
  lemma NonNumericComponentIsZero(v: string, t: string)
    requires '.' !in t
    requires |t| > 0 && !IsJsSpace(t[0]) && t[0] != '-' && t[0] != '+'
    requires DigitValue(t[0], 10).None?
    ensures Compare(v + "." + t, v) == 0
  {
    ComponentsAppend(v, t);
    NonNumericIsZero(t);
    PaddedWithZero(Components(v));
    CompareFromAntisymmetric(Components(v), Components(v) + [0], 0);
  }

  // ---------------------------------------------------------------------------
  // Sorting

  /** `Array.prototype.sort(cmp)` is only well behaved for a comparator that
      is antisymmetric and whose "may come first" relation is transitive. */
  ghost predicate Consistent(cmp: (string, string) -> int)
  {
    (forall x, y :: cmp(x, y) == -cmp(y, x)) &&
    (forall x, y, z :: cmp(x, y) <= 0 && cmp(y, z) <= 0 ==> cmp(x, z) <= 0)
  }

  /** No element is preceded by one that `cmp` puts after it. */
  predicate SortedBy(s: seq<string>, cmp: (string, string) -> int)
  {
    forall i, j :: 0 <= i < j < |s| ==> cmp(s[i], s[j]) <= 0
  }

  lemma ConsSorted(y: string, s: seq<string>, cmp: (string, string) -> int)
    requires SortedBy(s, cmp)
    requires forall z :: z in s ==> cmp(y, z) <= 0
    ensures SortedBy([y] + s, cmp)
  {
    var r := [y] + s;
    forall i, j | 0 <= i < j < |r| ensures cmp(r[i], r[j]) <= 0 {
      if i == 0 {
        assert r[j] == s[j - 1] && s[j - 1] in s;
      } else {
        assert r[i] == s[i - 1] && r[j] == s[j - 1];
      }
    }
  }

  /** Insert `x` before the first element it may precede. An element goes in
      front of the ones equal to it, so inserting from the back keeps equal
      elements in their input order. */
  function InsertBy(x: string, s: seq<string>, cmp: (string, string) -> int): (r: seq<string>)
    requires Consistent(cmp) && SortedBy(s, cmp)
    ensures multiset(r) == multiset(s) + multiset{x}
    ensures SortedBy(r, cmp)
  {
    if |s| == 0 then [x]
    else if cmp(x, s[0]) > 0 then
      var rest := InsertBy(x, s[1..], cmp);
      HeadPrecedesInsert(x, s, rest, cmp);
      [s[0]] + rest
    else
      InsertedFirst(x, s, cmp);
      [x] + s
  }

  /** When `x` goes after the head, the head still leads. */
  lemma HeadPrecedesInsert(x: string, s: seq<string>, rest: seq<string>, cmp: (string, string) -> int)
    requires Consistent(cmp)
    requires |s| > 0 && SortedBy(s, cmp) && cmp(x, s[0]) > 0
    requires multiset(rest) == multiset(s[1..]) + multiset{x}
    requires SortedBy(rest, cmp)
    ensures multiset([s[0]] + rest) == multiset(s) + multiset{x}
    ensures SortedBy([s[0]] + rest, cmp)
  {
    forall z | z in rest ensures cmp(s[0], z) <= 0 {
      assert z in multiset(rest);
      if z != x {
        assert z in s[1..];
        var j :| 0 <= j < |s[1..]| && s[1..][j] == z;
        assert s[j + 1] == z;
      }
    }
    ConsSorted(s[0], rest, cmp);
    assert s == [s[0]] + s[1..];
  }

  /** When `x` may precede the head, it may precede everything. */
  lemma InsertedFirst(x: string, s: seq<string>, cmp: (string, string) -> int)
    requires Consistent(cmp)
    requires |s| > 0 && SortedBy(s, cmp) && cmp(x, s[0]) <= 0
    ensures SortedBy([x] + s, cmp)
  {
    forall z | z in s ensures cmp(x, z) <= 0 {
      var j :| 0 <= j < |s| && s[j] == z;
      if j > 0 {
        assert cmp(s[0], s[j]) <= 0;
      }
    }
    ConsSorted(x, s, cmp);
  }

  /** `s.sort(cmp)`, as an insertion sort that inserts from the back. */
  function SortBy(s: seq<string>, cmp: (string, string) -> int): (r: seq<string>)
    requires Consistent(cmp)
    ensures multiset(r) == multiset(s)
    ensures SortedBy(r, cmp)
  {
    if |s| == 0 then []
    else
      assert s == [s[0]] + s[1..];
      InsertBy(s[0], SortBy(s[1..], cmp), cmp)
  }

  /** The version comparator is one `sort` can use. */
  lemma CompareConsistent()
    ensures Consistent(Compare)
  {
    forall x, y ensures Compare(x, y) == -Compare(y, x) {
      Antisymmetric(x, y);
    }
    forall x, y, z | Compare(x, y) <= 0 && Compare(y, z) <= 0 ensures Compare(x, z) <= 0 {
      Transitive(x, y, z);
    }
  }

  /** Newest first. */
  predicate Descending(s: seq<string>)
  {
    SortedBy(s, Compare)
  }

  /** The sort in `getMinecraftVersions`. */
  function SortDescending(s: seq<string>): (r: seq<string>)
    ensures multiset(r) == multiset(s)
    ensures Descending(r)
  {
    CompareConsistent();
    SortBy(s, Compare)
  }

  // ---------------------------------------------------------------------------
  // getMinecraftVersions

  /** `.filter(v => v.version_type === 'release').map(v => v.version)` */
  function ReleaseNames(tags: seq<Modrinth.GameVersionTag>): (r: seq<string>)
    ensures |r| <= |tags|
    ensures forall x :: x in r <==> exists t :: t in tags && t.versionType == "release" && t.version == x
  {
    if |tags| == 0 then []
    else
      var rest := ReleaseNames(tags[1..]);
      assert forall t :: t in tags <==> t == tags[0] || t in tags[1..];
      if tags[0].versionType == "release" then [tags[0].version] + rest else rest
  }

  /** The release filter keeps the registry's order and every repetition:
      it works tag by tag, and a tag gives its version exactly when its type
      is "release". */
  lemma {:induction false} ReleaseNamesInOrder(a: seq<Modrinth.GameVersionTag>, b: seq<Modrinth.GameVersionTag>, t: Modrinth.GameVersionTag)
    ensures ReleaseNames(a + b) == ReleaseNames(a) + ReleaseNames(b)
    ensures ReleaseNames([t]) == if t.versionType == "release" then [t.version] else []
  {
    if |a| > 0 {
      assert (a + b)[0] == a[0];
      assert (a + b)[1..] == a[1..] + b;
      ReleaseNamesInOrder(a[1..], b, t);
    } else {
      assert a + b == b;
    }
    assert [t][1..] == [];
  }

  /** The list offered to the user: the release versions only, each as many
      times as the registry listed it, newest first. */
  function ReleaseVersions(tags: seq<Modrinth.GameVersionTag>): (r: seq<string>)
    ensures multiset(r) == multiset(ReleaseNames(tags))
    ensures forall x :: x in r <==> exists t :: t in tags && t.versionType == "release" && t.version == x
    ensures Descending(r)
  {
    var names := ReleaseNames(tags);
    var r := SortDescending(names);
    assert forall x :: x in r <==> x in names by {
      forall x ensures x in r <==> x in names {
        assert x in r <==> x in multiset(r);
        assert x in names <==> x in multiset(names);
      }
    }
    r
  }

  // ---------------------------------------------------------------------------
  // A worked example

  lemma NumberText(n: nat)
    ensures IntOrZero(DecimalOf(n)) == n
  {
    ParseDecimal(n);
  }

  lemma DecimalDotFree(n: nat)
    ensures '.' !in DecimalOf(n)
  {
    var d := DecimalOf(n);
    assert forall i :: 0 <= i < |d| ==> '0' <= d[i] <= '9';
  }

  /** A version without dots has one component. */
  lemma SingleComponent(v: string)
    requires '.' !in v
    ensures Components(v) == [IntOrZero(v)]
  {
    SplitFree(v, '.');
  }

  /** A number written in decimal is one component with that value. */
  lemma OneComponent(n: nat)
    ensures Components(DecimalOf(n)) == [n]
  {
    DecimalDotFree(n);
    NumberText(n);
    SingleComponent(DecimalOf(n));
  }

  /** Appending `.n` in decimal appends the component `n`. */
  lemma AppendNumber(v: string, n: nat)
    ensures Components(v + "." + DecimalOf(n)) == Components(v) + [n]
  {
    DecimalDotFree(n);
    NumberText(n);
    ComponentsAppend(v, DecimalOf(n));
  }

  /** The components of `major.minor.patch` written in decimal. */
  lemma ThreeComponents(major: nat, minor: nat, patch: nat)
    ensures Components(DecimalOf(major) + "." + DecimalOf(minor) + "." + DecimalOf(patch))
            == [major, minor, patch]
  {
    OneComponent(major);
    AppendNumber(DecimalOf(major), minor);
    AppendNumber(DecimalOf(major) + "." + DecimalOf(minor), patch);
  }

  lemma SmallDecimals()
    ensures DecimalOf(1) == "1" && DecimalOf(4) == "4"
    ensures DecimalOf(20) == "20" && DecimalOf(19) == "19"
  {
    assert Digits(20) == Digits(2) + [DigitChar(0)];
    assert Digits(19) == Digits(1) + [DigitChar(9)];
  }

  lemma ExampleComponents()
    ensures Components("1.20.1") == [1, 20, 1]
    ensures Components("1.20.4") == [1, 20, 4]
    ensures Components("1.19.4") == [1, 19, 4]
  {
    SmallDecimals();
    ThreeComponents(1, 20, 1);
    assert DecimalOf(1) + "." + DecimalOf(20) + "." + DecimalOf(1) == "1.20.1";
    ThreeComponents(1, 20, 4);
    assert DecimalOf(1) + "." + DecimalOf(20) + "." + DecimalOf(4) == "1.20.4";
    ThreeComponents(1, 19, 4);
    assert DecimalOf(1) + "." + DecimalOf(19) + "." + DecimalOf(4) == "1.19.4";
  }

  /** Orders two versions whose component lists are known. */
  lemma CompareKnown(x: string, y: string, a: seq<int>, b: seq<int>, k: nat)
    requires Components(x) == a && Components(y) == b
    requires forall j :: 0 <= j < k ==> At(a, j) == At(b, j)
    requires At(a, k) != At(b, k)
    ensures Compare(x, y) == At(b, k) - At(a, k)
  {
    FirstDifferenceFrom(a, b, 0, k);
  }

  lemma ExampleMinorDecides()
    ensures Compare("1.20.4", "1.19.4") < 0
  {
    ExampleComponents();
    CompareKnown("1.20.4", "1.19.4", [1, 20, 4], [1, 19, 4], 1);
  }

  /** A larger minor component wins even against a smaller patch one. */
  lemma ExampleMinorBeatsPatch()
    ensures Compare("1.20.1", "1.19.4") < 0
  {
    ExampleComponents();
    CompareKnown("1.20.1", "1.19.4", [1, 20, 1], [1, 19, 4], 1);
  }

  lemma ExamplePatchDecides()
    ensures Compare("1.20.1", "1.20.4") > 0
  {
    ExampleComponents();
    CompareKnown("1.20.1", "1.20.4", [1, 20, 1], [1, 20, 4], 2);
  }

  lemma SortOne(c: string, cmp: (string, string) -> int)
    requires Consistent(cmp)
    ensures SortBy([c], cmp) == [c]
  {
    assert [c][1..] == [];
  }

  lemma SortTwo(b: string, c: string, cmp: (string, string) -> int)
    requires Consistent(cmp) && cmp(b, c) < 0
    ensures SortBy([b, c], cmp) == [b, c]
  {
    assert [b, c][1..] == [c];
    SortOne(c, cmp);
  }

  lemma InsertSecond(a: string, b: string, c: string, cmp: (string, string) -> int)
    requires Consistent(cmp) && SortedBy([b, c], cmp)
    requires cmp(a, b) > 0 && cmp(a, c) < 0
    ensures InsertBy(a, [b, c], cmp) == [b, a, c]
  {
    assert [b, c][1..] == [c];
    assert InsertBy(a, [c], cmp) == [a, c];
  }

  /** The steps of the sort on three elements where the middle one leads
      and the last one trails. */
  lemma SortThree(a: string, b: string, c: string, cmp: (string, string) -> int)
    requires Consistent(cmp)
    requires cmp(a, b) > 0 && cmp(a, c) < 0 && cmp(b, c) < 0
    ensures SortBy([a, b, c], cmp) == [b, a, c]
  {
    assert [a, b, c][1..] == [b, c];
    SortTwo(b, c, cmp);
    InsertSecond(a, b, c, cmp);
  }

  /** Sorting `1.20.1, 1.20.4, 1.19.4` gives `1.20.4, 1.20.1, 1.19.4`. */
  lemma SortExample()
    ensures SortDescending(["1.20.1", "1.20.4", "1.19.4"]) == ["1.20.4", "1.20.1", "1.19.4"]
  {
    ExampleMinorDecides();
    ExampleMinorBeatsPatch();
    ExamplePatchDecides();
    CompareConsistent();
    SortThree("1.20.1", "1.20.4", "1.19.4", Compare);
  }
}
