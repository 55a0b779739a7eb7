/**
 * The built-in partitioner `MR_DefaultHashPartition` (mapreduce.c:204-210):
 * a djb2 string hash in `unsigned long` (64-bit, wrapping) arithmetic,
 * reduced modulo the partition count.
 */
module Hash {
  import opened CString
  import opened CInt

  /** The seed the hash starts from. */
  const Seed: int := 5381

  /**
   * The hash as the loop computes it: start at `Seed` and, for each byte
   * left to right, multiply by 33 and add the byte, wrapping at 2^64.
   */
  function WrappedHash(s: Str): (h: nat)
    ensures h < ULongModulus
    decreases |s|
  {
    if s == [] then Seed
    else (WrappedHash(s[..|s| - 1]) * 33 + s[|s| - 1]) % ULongModulus
  }

  /** The same fold in unbounded integers: the polynomial djb2 stands for. */
  function Djb2(s: Str): nat
    decreases |s|
  {
    if s == [] then Seed else Djb2(s[..|s| - 1]) * 33 + s[|s| - 1]
  }

  /** Wrapping at every step gives the unbounded hash wrapped once at the end. */
  lemma {:induction false} WrappedHashIsDjb2(s: Str)
    ensures WrappedHash(s) == Djb2(s) % ULongModulus
    decreases |s|
  {
    if s != [] {
      var p := s[..|s| - 1];
      WrappedHashIsDjb2(p);
      ModStep(Djb2(p), s[|s| - 1]);
    }
  }

  /** `((x mod M) * 33 + c) mod M == (x * 33 + c) mod M`. */
  lemma ModStep(x: nat, c: int)
    ensures ((x % ULongModulus) * 33 + c) % ULongModulus == (x * 33 + c) % ULongModulus
  {
    var q, r := x / ULongModulus, x % ULongModulus;
    assert x == q * ULongModulus + r;
    assert x * 33 + c == (r * 33 + c) + (33 * q) * ULongModulus;
    ShiftMod(r * 33 + c, 33 * q);
  }

  /** Adding a multiple of the modulus does not change the remainder. */
  lemma ShiftMod(y: int, k: int)
    ensures (y + k * ULongModulus) % ULongModulus == y % ULongModulus
  {
  }

  /**
   * The partition the default partitioner picks: djb2 wrapped to 64 bits,
   * modulo the partition count converted to `unsigned long`. The count is a
   * C `int`; 0 would be a division by zero. A negative count converts to
   * 2^64 plus the count.
   */
  function DefaultPartition(key: Str, numPartitions: int): (r: nat)
    requires -IntBound <= numPartitions < IntBound && numPartitions != 0
    ensures numPartitions > 0 ==> r < numPartitions
  {
    var divisor := numPartitions % ULongModulus;
    assert numPartitions > 0 ==> divisor == numPartitions;
    Djb2(key) % ULongModulus % divisor
  }

  /**
   * `MR_DefaultHashPartition`: fold the key into `hash` byte by byte, then
   * reduce it modulo the partition count.
   */
  method DefaultHashPartition(key: Str, numPartitions: int) returns (r: nat)
    requires -IntBound <= numPartitions < IntBound && numPartitions != 0
    ensures r == DefaultPartition(key, numPartitions)
  {
    var hash := Seed;
    var i := 0;
    while i < |key|
      invariant 0 <= i <= |key|
      invariant hash == WrappedHash(key[..i])
    {
      WrappedHashStep(key, i);
      hash := (hash * 33 + key[i]) % ULongModulus;
      i := i + 1;
    }
    assert key[..i] == key;
    WrappedHashIsDjb2(key);
    r := hash % (numPartitions % ULongModulus);
  }

  /** One more byte of input is one more step of the fold. */
  lemma WrappedHashStep(s: Str, i: nat)
    requires i < |s|
    ensures WrappedHash(s[..i + 1]) == (WrappedHash(s[..i]) * 33 + s[i]) % ULongModulus
  {
    assert s[..i + 1][..i] == s[..i];
  }
}
