/** RabinKarpCount.cpp: count the positions of target whose window of
    |pattern| characters has the pattern's rolling hash. The code compares
    hashes only, so what is guaranteed is that no occurrence is missed. */
module RabinKarpCount {
  import opened RollingHash

  /** The number of end indices i < n at which the hashes agree. */
  ghost function HitCount(target: string, pattern: string, n: nat): nat
  {
    if n == 0 then 0
    else HitCount(target, pattern, n - 1) + (if Hit(target, pattern, n - 1) then 1 else 0)
  }

  /** The number of end indices i < n at which the pattern really occurs. */
  ghost function OccurrenceCount(target: string, pattern: string, n: nat): nat
  {
    if n == 0 then 0
    else
      var i := n - 1;
      OccurrenceCount(target, pattern, i)
      + (if OccursAt(target, pattern, i + 1 - |pattern|) then 1 else 0)
  }

  /** `RabinKarp` of RabinKarpCount.cpp. `count` is the source's 32-bit `int`;
      the hashes and the rolling value are `long long`. */
  method RabinKarp(target: string, pattern: string) returns (count: Int32)
    requires IsAscii(target) && IsAscii(pattern)
    requires |target| < 0x8000_0000 && |pattern| < 0x8000_0000_0000_0000
    ensures count as int == HitCount(target, pattern, |target|)
  {
    count := 0;
    var targetSize, patternSize := |target|, |pattern|;
    var power := BinPow(Base64, patternSize as Int64);
    var patternHash := HashOf(pattern);
    var rollingHash: Int64 := 0;
    var i := 0;
    while i < targetSize
      invariant 0 <= i <= targetSize
      invariant rollingHash as int == Hash(Window(target, patternSize, i))
      invariant count as int == HitCount(target, pattern, i) <= i
    {
      rollingHash := Roll(target, patternSize, i, rollingHash, power);
      HitIsHashEquality(target, pattern, i, rollingHash as int, patternHash as int);
      if i >= patternSize - 1 && patternHash as Int64 == rollingHash {
        count := count + 1;
      }
      i := i + 1;
    }
  }

  /** A pattern longer than the target is never counted. */
  lemma {:induction false} LongPatternCountsZero(target: string, pattern: string, n: nat)
    requires |pattern| > |target| && n <= |target|
    ensures HitCount(target, pattern, n) == 0
  {
    if n > 0 {
      LongPatternCountsZero(target, pattern, n - 1);
    }
  }

  /** The empty pattern is counted once per character of the target. */
  lemma {:induction false} EmptyPatternCountsEveryIndex(target: string, n: nat)
    requires n <= |target|
    ensures HitCount(target, [], n) == n
  {
    if n > 0 {
      EmptyPatternCountsEveryIndex(target, n - 1);
      assert target[n..n] == [];
    }
  }

  /** No false negatives: every occurrence of the pattern is counted. */
  lemma {:induction false} OccurrencesAreCounted(target: string, pattern: string, n: nat)
    ensures OccurrenceCount(target, pattern, n) <= HitCount(target, pattern, n)
  {
    if n > 0 {
      OccurrencesAreCounted(target, pattern, n - 1);
    }
  }

  /** In particular one occurrence at index j makes the count positive. */
  lemma {:induction false} OccurrenceMakesCountPositive(target: string, pattern: string, j: nat, n: nat)
    requires OccursAt(target, pattern, j) && 1 <= j + |pattern| <= n <= |target|
    ensures HitCount(target, pattern, n) >= 1
  {
    if n > j + |pattern| {
      OccurrenceMakesCountPositive(target, pattern, j, n - 1);
    } else {
      assert Hit(target, pattern, n - 1);
    }
  }
}
