/** Byte-addressed memory, as the C code sees it through `memcpy` and
    `process_vm_readv`: a partial map from addresses to bytes, with 64-bit
    little-endian words on top. */
module Memory {

  type Byte = b: int | 0 <= b < 256

  type Mem = map<nat, Byte>

  const WORD_LIMIT: nat := 0x1_0000_0000_0000_0000

  function Pow256(k: nat): (r: nat)
    ensures r > 0
  {
    if k == 0 then 1 else 256 * Pow256(k - 1)
  }

  /** The `k` low bytes of `n`, least significant first. */
  function FromWord(n: nat, k: nat): (bs: seq<Byte>)
    ensures |bs| == k
  {
    if k == 0 then [] else [n % 256] + FromWord(n / 256, k - 1)
  }

  function ToWord(bs: seq<Byte>): nat {
    if bs == [] then 0 else bs[0] + 256 * ToWord(bs[1..])
  }

  lemma {:induction false} WordRoundTrip(n: nat, k: nat)
    requires n < Pow256(k)
    ensures ToWord(FromWord(n, k)) == n
  {
    if k > 0 {
      WordRoundTrip(n / 256, k - 1);
      assert FromWord(n, k)[1..] == FromWord(n / 256, k - 1);
    }
  }

  const WORD_SIZE: nat := 8

  /** A `size_t` or an address as it lies in memory. */
  function WordBytes(n: nat): (bs: seq<Byte>)
    ensures |bs| == WORD_SIZE
  {
    FromWord(n, WORD_SIZE)
  }

  /** Eight bytes hold every address. */
  lemma {:induction false} WordBytesRoundTrip(n: nat)
    requires n < WORD_LIMIT
    ensures ToWord(WordBytes(n)) == n
  {
    WordLimitIsPower();
    WordRoundTrip(n, WORD_SIZE);
  }

  lemma {:induction false} ToWordBound(bs: seq<Byte>)
    ensures ToWord(bs) < Pow256(|bs|)
  {
    if bs != [] {
      ToWordBound(bs[1..]);
    }
  }

  lemma {:induction false} WordAtBound(m: Mem, a: nat)
    requires Has(m, a, WORD_SIZE)
    ensures WordAt(m, a) < WORD_LIMIT
  {
    ToWordBound(Bytes(m, a, WORD_SIZE));
    WordLimitIsPower();
  }

  lemma {:induction false} WordLimitIsPower()
    ensures Pow256(WORD_SIZE) == WORD_LIMIT
  {
  }

  lemma {:induction false} ZeroWord(k: nat)
    ensures ToWord(seq(k, _ => 0)) == 0
    ensures FromWord(0, k) == seq(k, _ => 0)
  {
    if k > 0 {
      ZeroWord(k - 1);
      assert seq<Byte>(k, _ => 0)[1..] == seq<Byte>(k - 1, _ => 0);
    }
  }

  predicate Has(m: Mem, a: nat, n: nat) {
    forall x | a <= x < a + n :: x in m
  }

  function Bytes(m: Mem, a: nat, n: nat): (bs: seq<Byte>)
    requires Has(m, a, n)
    ensures |bs| == n
    ensures forall i | 0 <= i < n :: bs[i] == m[a + i]
  {
    seq(n, i requires 0 <= i < n => m[a + i])
  }

  function WordAt(m: Mem, a: nat): nat
    requires Has(m, a, WORD_SIZE)
  {
    ToWord(Bytes(m, a, WORD_SIZE))
  }

  ghost predicate SubMem(m: Mem, m': Mem) {
    forall x | x in m :: x in m' && m'[x] == m[x]
  }

  lemma {:induction false} SubMemBytes(m: Mem, m': Mem, a: nat, n: nat)
    requires SubMem(m, m') && Has(m, a, n)
    ensures Has(m', a, n) && Bytes(m', a, n) == Bytes(m, a, n)
  {
  }

  /** `s` with the bytes from `at` on replaced by `data`. */
  function Splice(s: seq<Byte>, at: nat, data: seq<Byte>): (r: seq<Byte>)
    requires at + |data| <= |s|
    ensures |r| == |s|
    ensures forall i | 0 <= i < |s| :: r[i] == if at <= i < at + |data| then data[i - at] else s[i]
  {
    s[..at] + data + s[at + |data|..]
  }

  function Zeros(n: nat): (bs: seq<Byte>)
    ensures |bs| == n
    ensures forall i | 0 <= i < n :: bs[i] == 0
  {
    seq(n, _ => 0)
  }
}
