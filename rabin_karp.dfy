/** RabinKarp.cpp: the start of the first window of target whose rolling
    hash equals the pattern's, or -1. Hashes are compared, never characters,
    so the result is the first hash match; a true occurrence is never
    skipped. */
module RabinKarp {
  import opened RollingHash

  /** `RabinKarp` of RabinKarp.cpp. The result is the source's 32-bit `int`
      (the `long long` start index converted on return). */
  method RabinKarp(target: string, pattern: string) returns (r: Int32)
    requires IsAscii(target) && IsAscii(pattern)
    requires |target| < 0x8000_0000 && |pattern| < 0x8000_0000_0000_0000
    // -1 exactly when no window end index has the pattern's hash
    ensures r == -1 <==> forall i :: 0 <= i < |target| ==> !Hit(target, pattern, i)
    // otherwise r is where the window of the FIRST hash match starts
    ensures r != -1 ==>
      var e := r as int + |pattern| - 1;
      0 <= e < |target| && Hit(target, pattern, e) && forall i :: 0 <= i < e ==> !Hit(target, pattern, i)
    // for a non-empty pattern: a start index whose window hashes like the
    // pattern, and no earlier window does
    ensures |pattern| > 0 && r != -1 ==>
      HashMatchAt(target, pattern, r as int)
      && forall q :: 0 <= q < r as int ==> !HashMatchAt(target, pattern, q)
    // no false negatives for a non-empty pattern
    ensures |pattern| > 0 ==> forall j :: OccursAt(target, pattern, j) ==> 0 <= r as int <= j
    ensures |pattern| > |target| ==> r == -1
    // the empty pattern matches at i = 0 and the start is reported as 0 - 0 + 1
    ensures pattern == [] ==> r == if target == [] then -1 else 1
  {
    var patternSize, targetSize := |pattern|, |target|;
    var power := BinPow(Base64, patternSize as Int64);
    var patternHash := HashOf(pattern);
    var rollingHash: Int64 := 0;
    var i := 0;
    while i < targetSize
      invariant 0 <= i <= targetSize
      invariant rollingHash as int == Hash(Window(target, patternSize, i))
      invariant forall k :: 0 <= k < i ==> !Hit(target, pattern, k)
    {
      rollingHash := Roll(target, patternSize, i, rollingHash, power);
      HitIsHashEquality(target, pattern, i, rollingHash as int, patternHash as int);
      if i >= patternSize - 1 && patternHash as Int64 == rollingHash {
        assert Hit(target, pattern, i);
        r := (i - patternSize + 1) as Int32;
        FirstHitFacts(target, pattern, i);
        return;
      }
      i := i + 1;
    }
    r := -1;
    NoHitFacts(target, pattern);
  }

  /** What a first hit at end index e says about start positions. */
  lemma FirstHitFacts(target: string, pattern: string, e: int)
    requires 0 <= e < |target| && Hit(target, pattern, e)
    requires forall i :: 0 <= i < e ==> !Hit(target, pattern, i)
    ensures |pattern| > 0 ==>
      HashMatchAt(target, pattern, e + 1 - |pattern|)
      && forall q :: 0 <= q < e + 1 - |pattern| ==> !HashMatchAt(target, pattern, q)
    ensures |pattern| > 0 ==> forall j :: OccursAt(target, pattern, j) ==> e + 1 - |pattern| <= j
    ensures pattern == [] ==> e == 0
  {
    if |pattern| > 0 {
      forall q | 0 <= q < e + 1 - |pattern|
        ensures !HashMatchAt(target, pattern, q)
      {
        assert !Hit(target, pattern, q + |pattern| - 1);
      }
      forall j | OccursAt(target, pattern, j)
        ensures e + 1 - |pattern| <= j
      {
        assert Hit(target, pattern, j + |pattern| - 1);
      }
    } else if e > 0 {
      assert target[1..1] == [];
      assert Hit(target, pattern, 0);
    }
  }

  /** When no end index hits, no true occurrence of a non-empty pattern exists
      and the target is empty whenever the pattern is. */
  lemma NoHitFacts(target: string, pattern: string)
    requires forall i :: 0 <= i < |target| ==> !Hit(target, pattern, i)
    ensures |pattern| > 0 ==> forall j :: !OccursAt(target, pattern, j)
    ensures pattern == [] ==> target == []
  {
    if |pattern| > 0 {
      forall j | 0 <= j
        ensures !OccursAt(target, pattern, j)
      {
        assert !Hit(target, pattern, j + |pattern| - 1);
      }
    } else if target != [] {
      assert target[1..1] == [];
      assert Hit(target, pattern, 0);
    }
  }
}
