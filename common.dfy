/**
 * The general helpers of assets/script/common/common.ts: thousands grouping, version
 * comparison, the in-place shuffle and the random choices built on it, and `clamp`.
 * Random numbers are supplied as draws in [0, 1), one per call of `Math.random`.
 */
module Common {
  import opened Wrappers
  import opened Strings

  // ---------------------------------------------------------------------------
  // toThousands

  /** The digits `d` with a comma before every full group of three counted from the right. */
  function Group(d: string): string
  {
    if |d| <= 3 then d else Group(d[..|d| - 3]) + "," + d[|d| - 3..]
  }

  /** The groups of `d`: a first group of one to three digits, then groups of three. */
  function Chunks(d: string): (r: seq<string>)
    ensures |r| >= 1
  {
    if |d| <= 3 then [d] else Chunks(d[..|d| - 3]) + [d[|d| - 3..]]
  }

  function Concat(parts: seq<string>): string
  {
    if parts == [] then "" else Concat(parts[..|parts| - 1]) + parts[|parts| - 1]
  }

  /**
   * `toThousands(num)` for an integer `num`: the decimal text of `num` with its digit run
   * grouped by commas. From 10^21 on, `toString` writes exponent notation, which is not
   * modelled.
   */
  function ToThousands(num: int): string
    requires -1_000_000_000_000_000_000_000 < num < 1_000_000_000_000_000_000_000
  {
    var digits := NatToString(if num < 0 then -num else num);
    (if num < 0 then "-" else "") + Group(digits)
  }

  lemma {:induction false} JoinSnoc(parts: seq<string>, last: string, sep: char)
    requires |parts| >= 1
    ensures Join(parts + [last], sep) == Join(parts, sep) + [sep] + last
  {
    if |parts| > 1 {
      assert (parts + [last])[1..] == parts[1..] + [last];
      JoinSnoc(parts[1..], last, sep);
    }
  }

  lemma {:induction false} GroupIsJoin(d: string)
    ensures Group(d) == Join(Chunks(d), ',')
  {
    if |d| > 3 {
      GroupIsJoin(d[..|d| - 3]);
      JoinSnoc(Chunks(d[..|d| - 3]), d[|d| - 3..], ',');
    }
  }

  lemma {:induction false} ChunksShape(d: string)
    requires |d| > 0
    ensures 1 <= |Chunks(d)[0]| <= 3
    ensures forall i :: 1 <= i < |Chunks(d)| ==> |Chunks(d)[i]| == 3
    ensures forall i :: 0 <= i < |Chunks(d)| ==> forall k :: 0 <= k < |Chunks(d)[i]| ==> Chunks(d)[i][k] in d
    ensures Concat(Chunks(d)) == d
  {
    if |d| > 3 {
      var init := d[..|d| - 3];
      ChunksShape(init);
      var c := Chunks(d);
      assert c == Chunks(init) + [d[|d| - 3..]];
      assert c[..|c| - 1] == Chunks(init);
      forall i | 0 <= i < |c| ensures forall k :: 0 <= k < |c[i]| ==> c[i][k] in d {
        if i < |c| - 1 {
          assert c[i] == Chunks(init)[i];
          forall k | 0 <= k < |c[i]| ensures c[i][k] in d {
            assert c[i][k] in init;
          }
        }
      }
      assert init + d[|d| - 3..] == d;
    }
  }

  /**
   * The grouped digits split at the commas into a leading group of one to three digits
   * and groups of exactly three, which put together are the digits again.
   */
  lemma GroupPieces(d: string)
    requires |d| > 0 && AllDigits(d)
    ensures var p := Split(Group(d), ',');
      1 <= |p[0]| <= 3 && (forall i :: 1 <= i < |p| ==> |p[i]| == 3) && Concat(p) == d
  {
    GroupIsJoin(d);
    ChunksShape(d);
    var c := Chunks(d);
    assert ',' !in d;
    SplitJoin(c, ',');
  }

  /**
   * The text of `toThousands` is a minus sign for a negative number, then digit groups
   * separated by commas: one to three digits first, exactly three in every later group,
   * together the decimal digits of the magnitude.
   */
  lemma ToThousandsGroups(num: int)
    requires -1_000_000_000_000_000_000_000 < num < 1_000_000_000_000_000_000_000
    ensures var t := ToThousands(num);
      var body := if num < 0 then t[1..] else t;
      (num < 0 ==> |t| > 0 && t[0] == '-') &&
      var p := Split(body, ',');
      1 <= |p[0]| <= 3 && (forall i :: 1 <= i < |p| ==> |p[i]| == 3) &&
      Concat(p) == NatToString(if num < 0 then -num else num)
  {
    var d := NatToString(if num < 0 then -num else num);
    var t := ToThousands(num);
    var g := Group(d);
    assert t == (if num < 0 then "-" else "") + g;
    var body := if num < 0 then t[1..] else t;
    assert body == g;
    GroupPieces(d);
  }

  /** A number from zero to 999 gets no comma. */
  lemma ToThousandsSmall(num: int)
    requires 0 <= num < 1000
    ensures ToThousands(num) == NatToString(num)
  {
    if num >= 10 {
      assert |NatToString(num / 10)| <= 2 by {
        if num / 10 >= 10 {
          assert |NatToString(num / 100)| == 1;
        }
      }
    }
  }

  lemma ToThousandsExample()
    ensures ToThousands(1234567) == "1,234,567"
  {
    assert NatToString(1) == "1";
    assert NatToString(12) == "12";
    assert NatToString(123) == "123";
    assert NatToString(1234) == "1234";
    assert NatToString(12345) == "12345";
    assert NatToString(123456) == "123456";
    assert NatToString(1234567) == "1234567";
    assert "1234567"[..4] == "1234" && "1234567"[4..] == "567";
    assert "1234"[..1] == "1" && "1234"[1..] == "234";
    assert Group("1234") == "1,234";
    assert Group("1234567") == Group("1234") + "," + "567";
  }

  // ---------------------------------------------------------------------------
  // compareVersion

  /** `a > b` between two `parseInt` results: false as soon as either is `NaN`. */
  predicate Greater(a: Option<int>, b: Option<int>) {
    a.Some? && b.Some? && a.value > b.value
  }

  /** The comparison loop of `compareVersion` on two component lists of one length. */
  function ComparePadded(p: seq<string>, q: seq<string>): (r: int)
    requires |p| == |q|
    ensures r == -1 || r == 0 || r == 1
  {
    if p == [] then 0
    else if Greater(ParseInt(p[0]), ParseInt(q[0])) then 1
    else if Greater(ParseInt(q[0]), ParseInt(p[0])) then -1
    else ComparePadded(p[1..], q[1..])
  }

  function Zeros(k: nat): (r: seq<string>)
    ensures |r| == k && forall i :: 0 <= i < k ==> r[i] == "0"
  {
    seq(k, _ => "0")
  }

  /** The components of `v`, padded with "0" components to `len`. */
  function Padded(v: string, len: nat): (r: seq<string>)
    requires |Split(v, '.')| <= len
    ensures |r| == len
  {
    Split(v, '.') + Zeros(len - |Split(v, '.')|)
  }

  function Max(a: nat, b: nat): nat {
    if a >= b then a else b
  }

  /** What `compareVersion(v1, v2)` returns: 1 if `v1` is newer, -1 if older, 0 otherwise. */
  function VersionOrder(v1: string, v2: string): int
  {
    var len := Max(|Split(v1, '.')|, |Split(v2, '.')|);
    ComparePadded(Padded(v1, len), Padded(v2, len))
  }

  /**
   * `compareVersion`: split both versions on '.', pad the shorter with "0" components,
   * and compare component by component as integers.
   */
  method CompareVersion(v1: string, v2: string) returns (r: int)
    ensures r == VersionOrder(v1, v2)
    ensures r == -1 || r == 0 || r == 1
  {
    var version1 := Split(v1, '.');
    var version2 := Split(v2, '.');
    var len := Max(|version1|, |version2|);
    while |version1| < len
      invariant |Split(v1, '.')| <= |version1| <= len
      invariant version1 == Split(v1, '.') + Zeros(|version1| - |Split(v1, '.')|)
    {
      version1 := version1 + ["0"];
    }
    while |version2| < len
      invariant |Split(v2, '.')| <= |version2| <= len
      invariant version2 == Split(v2, '.') + Zeros(|version2| - |Split(v2, '.')|)
    {
      version2 := version2 + ["0"];
    }
    ghost var order := VersionOrder(v1, v2);
    assert version1 == Padded(v1, len) && version2 == Padded(v2, len);
    assert version1[0..] == version1 && version2[0..] == version2;
    var i := 0;
    while i < len
      invariant 0 <= i <= len && |version1| == |version2| == len
      invariant ComparePadded(version1[i..], version2[i..]) == order
    {
      var num1 := ParseInt(version1[i]);
      var num2 := ParseInt(version2[i]);
      if Greater(num1, num2) {
        return 1;
      } else if Greater(num2, num1) {
        return -1;
      }
      assert version1[i..][1..] == version1[i + 1..] && version2[i..][1..] == version2[i + 1..];
      i := i + 1;
    }
    return 0;
  }

  lemma {:induction false} ComparePaddedSame(p: seq<string>)
    ensures ComparePadded(p, p) == 0
  {
    if p != [] {
      ComparePaddedSame(p[1..]);
    }
  }

  lemma {:induction false} ComparePaddedSwap(p: seq<string>, q: seq<string>)
    requires |p| == |q|
    ensures ComparePadded(p, q) == -ComparePadded(q, p)
  {
    if p != [] {
      ComparePaddedSwap(p[1..], q[1..]);
    }
  }

  /** A version is as new as itself. */
  lemma VersionOrderReflexive(v: string)
    ensures VersionOrder(v, v) == 0
  {
    ComparePaddedSame(Padded(v, |Split(v, '.')|));
  }

  /** Swapping the arguments negates the result. */
  lemma VersionOrderAntisymmetric(v1: string, v2: string)
    ensures VersionOrder(v1, v2) == -VersionOrder(v2, v1)
  {
    var len := Max(|Split(v1, '.')|, |Split(v2, '.')|);
    assert Max(|Split(v2, '.')|, |Split(v1, '.')|) == len;
    ComparePaddedSwap(Padded(v1, len), Padded(v2, len));
  }

  /** Splitting `a.b` where `b` has no dot: the pieces of `a`, then `b`. */
  lemma {:induction false} SplitSnoc(a: string, b: string, sep: char)
    requires sep !in b
    ensures Split(a + [sep] + b, sep) == Split(a, sep) + [b]
    decreases |a|
  {
    if sep !in a {
      SplitCons(a, b, sep);
      SplitNoSep(b, sep);
    } else {
      var i := IndexOf(a, sep);
      var a1, a2 := a[..i], a[i + 1..];
      var rest := a2 + [sep] + b;
      Cut(a, i);
      assert a + [sep] + b == a1 + [sep] + rest;
      SplitCons(a1, rest, sep);
      SplitSnoc(a2, b, sep);
      SplitCons(a1, a2, sep);
      assert Split(a + [sep] + b, sep) == [a1] + (Split(a2, sep) + [b]);
    }
  }

  /** A trailing ".0" makes no difference: `compareVersion('1.0', '1')` is 0. */
  lemma VersionOrderTrailingZero(v: string)
    ensures VersionOrder(v + ".0", v) == 0
  {
    SplitSnoc(v, "0", '.');
    assert v + ".0" == v + ['.'] + "0";
    var p := Split(v, '.');
    var len := |p| + 1;
    assert Max(|Split(v + ".0", '.')|, |p|) == len;
    assert Padded(v + ".0", len) == p + ["0"];
    assert Padded(v, len) == p + ["0"];
    ComparePaddedSame(p + ["0"]);
  }

  lemma OneZeroEqualsOne()
    ensures VersionOrder("1.0", "1") == 0
  {
    VersionOrderTrailingZero("1");
    assert "1" + ".0" == "1.0";
  }

  /** Splitting a version of three components. */
  lemma SplitVersion(a: string, b: string, c: string)
    requires '.' !in a && '.' !in b && '.' !in c
    ensures Split(a + "." + b + "." + c, '.') == [a, b, c]
  {
    SplitNoSep(c, '.');
    SplitCons(b, c, '.');
    assert a + "." + b + "." + c == a + ['.'] + (b + ['.'] + c);
    SplitCons(a, b + ['.'] + c, '.');
  }

  lemma ParseExampleTokens()
    ensures ParseInt("0") == Some(0) && ParseInt("1") == Some(1) && ParseInt("9") == Some(9)
    ensures ParseInt("11") == Some(11) && ParseInt("99") == Some(99)
  {
    assert "11"[..1] == "1" && "99"[..1] == "9";
  }

  /** Versions of three components each compare as their component lists. */
  lemma ThreeComponents(v1: string, v2: string, p: seq<string>, q: seq<string>)
    requires Split(v1, '.') == p && Split(v2, '.') == q && |p| == 3 && |q| == 3
    ensures VersionOrder(v1, v2) == ComparePadded(p, q)
  {
    assert Padded(v1, 3) == p && Padded(v2, 3) == q;
  }

  lemma VersionsOfThree(a: string, b: string, c: string, x: string, y: string, z: string, v1: string, v2: string)
    requires '.' !in a && '.' !in b && '.' !in c && v1 == a + "." + b + "." + c
    requires '.' !in x && '.' !in y && '.' !in z && v2 == x + "." + y + "." + z
    ensures VersionOrder(v1, v2) == ComparePadded([a, b, c], [x, y, z])
  {
    SplitVersion(a, b, c);
    SplitVersion(x, y, z);
    ThreeComponents(v1, v2, [a, b, c], [x, y, z]);
  }

  lemma ComponentsNewer()
    ensures ComparePadded(["1", "11", "0"], ["1", "9", "9"]) == 1
  {
    ParseExampleTokens();
    assert ["1", "11", "0"][1..] == ["11", "0"] && ["1", "9", "9"][1..] == ["9", "9"];
  }

  lemma ComponentsOlder()
    ensures ComparePadded(["1", "11", "0"], ["1", "99", "0"]) == -1
  {
    ParseExampleTokens();
    assert ["1", "11", "0"][1..] == ["11", "0"] && ["1", "99", "0"][1..] == ["99", "0"];
  }

  /** The three examples in the documentation of `compareVersion`. */
  lemma CompareVersionNewer(v1: string, v2: string)
    requires v1 == "1.11.0" && v2 == "1.9.9"
    ensures VersionOrder(v1, v2) == 1
  {
    VersionsOfThree("1", "11", "0", "1", "9", "9", v1, v2);
    ComponentsNewer();
  }

  lemma CompareVersionSame(v1: string, v2: string)
    requires v1 == "1.11.0" && v2 == "1.11.0"
    ensures VersionOrder(v1, v2) == 0
  {
    VersionOrderReflexive(v1);
  }

  lemma CompareVersionOlder(v1: string, v2: string)
    requires v1 == "1.11.0" && v2 == "1.99.0"
    ensures VersionOrder(v1, v2) == -1
  {
    VersionsOfThree("1", "11", "0", "1", "99", "0", v1, v2);
    ComponentsOlder();
  }

  // ---------------------------------------------------------------------------
  // shuffleArr, randomChoice, randomChoiceOne

  /** `Math.floor(r * (i + 1))` for a draw `r` in [0, 1): a position from 0 to `i`. */
  function Pick(r: real, i: nat): (j: nat)
    requires 0.0 <= r < 1.0
    ensures j <= i
  {
    var x := r * ((i + 1) as real);
    assert x < (i + 1) as real by {
      assert (1.0 - r) * ((i + 1) as real) > 0.0;
    }
    x.Floor
  }

  predicate IsDraws(draws: seq<real>) {
    forall k :: 0 <= k < |draws| ==> 0.0 <= draws[k] < 1.0
  }

  function Swap<T>(s: seq<T>, a: nat, b: nat): (r: seq<T>)
    requires a < |s| && b < |s|
    ensures |r| == |s|
  {
    s[a := s[b]][b := s[a]]
  }

  /** The list after the first `k` passes of `shuffleArr`'s loop, which runs from the end. */
  function ShuffleSteps<T>(s: seq<T>, draws: seq<real>, k: nat): (r: seq<T>)
    requires k <= |s| && |draws| >= k && IsDraws(draws)
    ensures |r| == |s|
  {
    if k == 0 then s
    else
      var i := |s| - k;
      Swap(ShuffleSteps(s, draws, k - 1), Pick(draws[k - 1], i), i)
  }

  /** What `shuffleArr` leaves in the array. */
  function Shuffled<T>(s: seq<T>, draws: seq<real>): (r: seq<T>)
    requires |draws| >= |s| && IsDraws(draws)
    ensures |r| == |s|
  {
    ShuffleSteps(s, draws, |s|)
  }

  lemma SwapPermutes<T>(s: seq<T>, a: nat, b: nat)
    requires a < |s| && b < |s|
    ensures multiset(Swap(s, a, b)) == multiset(s)
  {
    var t := s[a := s[b]];
    assert multiset(t) == multiset(s) - multiset{s[a]} + multiset{s[b]};
    assert multiset(t[b := s[a]]) == multiset(t) - multiset{t[b]} + multiset{s[a]};
  }

  lemma {:induction false} ShuffleStepsPermutes<T>(s: seq<T>, draws: seq<real>, k: nat)
    requires k <= |s| && |draws| >= k && IsDraws(draws)
    ensures multiset(ShuffleSteps(s, draws, k)) == multiset(s)
  {
    if k > 0 {
      ShuffleStepsPermutes(s, draws, k - 1);
      var prev, i := ShuffleSteps(s, draws, k - 1), |s| - k;
      var j := Pick(draws[k - 1], i);
      assert ShuffleSteps(s, draws, k) == Swap(prev, j, i);
      SwapPermutes(prev, j, i);
    }
  }

  /** The shuffle is a permutation of the list. */
  lemma ShuffledPermutes<T>(s: seq<T>, draws: seq<real>)
    requires |draws| >= |s| && IsDraws(draws)
    ensures multiset(Shuffled(s, draws)) == multiset(s)
  {
    ShuffleStepsPermutes(s, draws, |s|);
  }

  /**
   * `shuffleArr`: for `i` from the last position down to 0, swap `arr[i]` with the entry at
   * a position drawn from 0 to `i`; the same array is returned.
   */
  method ShuffleArr<T>(arr: array<T>, draws: seq<real>) returns (r: array<T>)
    requires |draws| >= arr.Length && IsDraws(draws)
    modifies arr
    ensures r == arr
    ensures arr[..] == Shuffled(old(arr[..]), draws)
    ensures multiset(arr[..]) == multiset(old(arr[..]))
  {
    ghost var s := arr[..];
    var i := arr.Length - 1;
    while i >= 0
      invariant -1 <= i < arr.Length
      invariant arr[..] == ShuffleSteps(s, draws, arr.Length - 1 - i)
    {
      ghost var prev := arr[..];
      var randomIndex := Pick(draws[arr.Length - 1 - i], i);
      var itemAtIndex := arr[randomIndex];
      arr[randomIndex] := arr[i];
      arr[i] := itemAtIndex;
      assert arr[..] == Swap(prev, randomIndex, i);
      assert arr.Length - 1 - (i - 1) == (arr.Length - 1 - i) + 1;
      i := i - 1;
    }
    ghost var final := arr[..];
    assert final == Shuffled(s, draws);
    ShuffledPermutes(s, draws);
    assert multiset(final) == multiset(s);
    return arr;
  }

  /** The end position `slice(0, n)` stops at on a list of `len` entries. */
  function SliceEnd(len: nat, n: int): (e: nat)
    ensures e <= len
    ensures n >= 0 ==> e == if n < len then n else len
  {
    if n >= 0 then (if n < len then n else len)
    else if len + n >= 0 then len + n
    else 0
  }

  /**
   * `randomChoice(arr, n)`: a shuffled copy of `arr` cut to its first `n` entries;
   * `arr` itself is left as it is.
   */
  method RandomChoice<T>(arr: seq<T>, n: int, draws: seq<real>) returns (r: seq<T>)
    requires |draws| >= |arr| && IsDraws(draws)
    ensures r == Shuffled(arr, draws)[..SliceEnd(|arr|, n)]
    ensures |r| == SliceEnd(|arr|, n)
    ensures multiset(r) <= multiset(arr)
  {
    var copy := new T[|arr|](k requires 0 <= k < |arr| => arr[k]);
    assert copy[..] == arr;
    var shuffled := ShuffleArr(copy, draws);
    r := shuffled[..SliceEnd(|arr|, n)];
    assert shuffled[..] == r + shuffled[SliceEnd(|arr|, n)..];
    assert multiset(shuffled[..]) == multiset(arr);
  }

  /** `randomChoiceOne(arr)`: the first entry of a one-entry choice; `undefined` for an empty list. */
  method RandomChoiceOne<T>(arr: seq<T>, draws: seq<real>) returns (r: Option<T>)
    requires |draws| >= |arr| && IsDraws(draws)
    ensures r.Some? <==> |arr| > 0
    ensures r.Some? ==> r.value in arr && r.value == Shuffled(arr, draws)[0]
  {
    var chosen := RandomChoice(arr, 1, draws);
    if |chosen| == 0 {
      return None;
    }
    assert chosen[0] in multiset(chosen);
    return Some(chosen[0]);
  }

  // ---------------------------------------------------------------------------
  // clamp

  /** `clamp(input, min, max)`: `min` below `min`, `max` above `max`, the input otherwise. */
  function Clamp(input: real, min: real, max: real): (r: real)
    ensures r == input || r == min || r == max
    ensures min <= input <= max ==> r == input
    ensures min <= max ==> min <= r <= max
    ensures input < min ==> r == min
    ensures !(input < min) && input > max ==> r == max
  {
    if input < min then min else if input > max then max else input
  }

  /** Clamping twice is clamping once, when the range is not empty. */
  lemma ClampIdempotent(input: real, min: real, max: real)
    requires min <= max
    ensures Clamp(Clamp(input, min, max), min, max) == Clamp(input, min, max)
  {
  }
}
