/** Byte-addressed memory and the 32-bit little-endian words kept in it. */
module Memory {

  const WORD_LIMIT: int := 0x1_0000_0000

  type byte = x: int | 0 <= x < 0x100
  type word = x: int | 0 <= x < WORD_LIMIT

  /** The `uint32_t` stored at address `a`. */
  function Word(m: seq<byte>, a: nat): word
    requires a + 4 <= |m|
  {
    m[a] as int + 0x100 * (m[a + 1] as int) + 0x1_0000 * (m[a + 2] as int) + 0x100_0000 * (m[a + 3] as int)
  }

  /** `m'` differs from `m` at most in the addresses `lo..hi`. */
  ghost predicate SameOutside(m: seq<byte>, m': seq<byte>, lo: int, hi: int) {
    |m| == |m'| && forall k :: 0 <= k < |m| && !(lo <= k < hi) ==> m'[k] == m[k]
  }

  method LoadWord(mem: array<byte>, a: nat) returns (w: word)
    requires a + 4 <= mem.Length
    ensures w == Word(mem[..], a)
  {
    w := mem[a] as int + 0x100 * (mem[a + 1] as int) + 0x1_0000 * (mem[a + 2] as int)
         + 0x100_0000 * (mem[a + 3] as int);
  }

  lemma FourBytes(w: word)
    ensures w == w % 0x100 + 0x100 * (w / 0x100 % 0x100) + 0x1_0000 * (w / 0x1_0000 % 0x100)
                 + 0x100_0000 * (w / 0x100_0000)
    ensures w / 0x100_0000 < 0x100
  {
    assert w / 0x1_0000 == w / 0x100 / 0x100 && w / 0x100_0000 == w / 0x1_0000 / 0x100;
  }

  method StoreWord(mem: array<byte>, a: nat, w: word)
    requires a + 4 <= mem.Length
    modifies mem
    ensures mem[a] == w % 0x100 && mem[a + 1] == w / 0x100 % 0x100
    ensures mem[a + 2] == w / 0x1_0000 % 0x100 && mem[a + 3] == w / 0x100_0000
    ensures Word(mem[..], a) == w
    ensures forall b: nat :: b + 4 <= mem.Length && (b + 4 <= a || a + 4 <= b) ==>
              Word(mem[..], b) == Word(old(mem[..]), b)
    ensures SameOutside(old(mem[..]), mem[..], a, a + 4)
  {
    FourBytes(w);
    mem[a] := w % 0x100;
    mem[a + 1] := w / 0x100 % 0x100;
    mem[a + 2] := w / 0x1_0000 % 0x100;
    mem[a + 3] := w / 0x100_0000;
  }
}
