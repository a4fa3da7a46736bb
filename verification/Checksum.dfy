/**
 The Internet checksum of kernel/net.c.  The reference is the one's complement sum of 16-bit words
 with end-around carry (RFC 1071, section 1); the code sums in 32 bits and folds at the end.
 */
module Checksum {
  import opened Memory

  type word16 = x: int | 0 <= x < 0x1_0000

  const FULL: int := 0xFFFF

  // ---- The reference ----

  /** The little-endian words of `data`; an odd last byte is a word of its own. */
  ghost function Words(data: seq<byte>): (ws: seq<word16>)
    ensures |ws| == (|data| + 1) / 2
  {
    if data == [] then []
    else if |data| % 2 == 1 then Words(data[..|data| - 1]) + [data[|data| - 1] as int]
    else Words(data[..|data| - 2]) + [data[|data| - 2] as int + 0x100 * data[|data| - 1] as int]
  }

  /** Addition with end-around carry. */
  function OnesAdd(a: word16, b: word16): word16 {
    if a + b > FULL then a + b - FULL else a + b
  }

  ghost function OnesSum(ws: seq<word16>): word16 {
    if ws == [] then 0 else OnesAdd(OnesSum(ws[..|ws| - 1]), ws[|ws| - 1])
  }

  /** The checksum as RFC 1071 defines it. */
  ghost function Reference(data: seq<byte>): word16 {
    FULL - OnesSum(Words(data))
  }

  // ---- What the code computes ----

  ghost function Sum(ws: seq<word16>): nat {
    if ws == [] then 0 else Sum(ws[..|ws| - 1]) + ws[|ws| - 1]
  }

  /** The result of folding: congruent modulo 65535, and 0 only for 0. */
  ghost function Folded(s: nat): word16 {
    if s == 0 then 0 else (s - 1) % FULL + 1
  }

  lemma FoldStep(s: nat)
    requires s >= 0x1_0000
    ensures s % 0x1_0000 + s / 0x1_0000 < s
    ensures Folded(s % 0x1_0000 + s / 0x1_0000) == Folded(s)
  {
    var q, r := s / 0x1_0000, s % 0x1_0000;
    assert s - 1 == (q + r - 1) + FULL * q;
    ModShift(q + r - 1, q);
  }

  lemma ModShift(x: nat, q: nat)
    ensures (x + FULL * q) % FULL == x % FULL
  {
    assert (x + FULL * q) / FULL == x / FULL + q;
  }

  /** Adding a word before folding or after folding, with end-around carry, is the same. */
  lemma FoldedAdd(s: nat, w: word16)
    ensures Folded(s + w) == OnesAdd(Folded(s), w)
  {
    if s > 0 {
      var q := (s - 1) / FULL;
      assert s == Folded(s) + FULL * q;
      if w > 0 {
        ModShift(Folded(s) + w - 1, q);
      }
    }
  }

  /** Summing first and folding once gives the one's complement sum. */
  lemma {:induction false} FoldedSum(ws: seq<word16>)
    ensures Folded(Sum(ws)) == OnesSum(ws)
  {
    if ws != [] {
      FoldedSum(ws[..|ws| - 1]);
      FoldedAdd(Sum(ws[..|ws| - 1]), ws[|ws| - 1]);
    }
  }

  /** The sum of the bytes, where those at odd places count 256 times. */
  ghost function WeightedBytes(data: seq<byte>): nat {
    if data == [] then 0
    else WeightedBytes(data[..|data| - 1]) + data[|data| - 1] as int * (if |data| % 2 == 1 then 1 else 0x100)
  }

  /** The words are little-endian, and an odd last byte is the low byte of a word. */
  lemma {:induction false} SumOfBytes(data: seq<byte>)
    ensures Sum(Words(data)) == WeightedBytes(data)
    decreases |data|
  {
    hide Words, Sum, WeightedBytes;
    if data == [] {
      NothingToAdd(data);
      WeightsOfNone(data);
    } else {
      LastWord(data);
      LastWeight(data);
      if |data| % 2 == 1 {
        SumOfBytes(data[..|data| - 1]);
      } else {
        SumOfBytes(data[..|data| - 2]);
        assert data[..|data| - 1][..|data| - 2] == data[..|data| - 2];
        LastWeight(data[..|data| - 1]);
      }
    }
  }

  lemma WeightsOfNone(data: seq<byte>)
    requires data == []
    ensures WeightedBytes(data) == 0
  {
  }

  lemma LastWeight(data: seq<byte>)
    requires data != []
    ensures WeightedBytes(data) ==
            WeightedBytes(data[..|data| - 1]) + data[|data| - 1] as int * (if |data| % 2 == 1 then 1 else 0x100)
  {
  }

  // ---- No overflow ----

  ghost predicate NeverOverflows(n: nat) {
    forall data: seq<byte> :: |data| == n ==> Sum(Words(data)) < WORD_LIMIT
  }

  /** The 16-bit word at the even offset `i`. */
  function WordAt(data: seq<byte>, i: nat): word16
    requires i + 2 <= |data|
  {
    data[i] as int + 0x100 * data[i + 1] as int
  }

  lemma SumPushed(ws: seq<word16>, w: word16)
    ensures Sum(ws + [w]) == Sum(ws) + w
  {
    assert (ws + [w])[..|ws|] == ws;
  }

  lemma WordsEven(data: seq<byte>)
    requires data != [] && |data| % 2 == 0
    ensures Words(data) == Words(data[..|data| - 2]) + [WordAt(data, |data| - 2)]
  {
    var rest, w := data[..|data| - 2], WordAt(data, |data| - 2);
    assert Words(data) == Words(rest) + [w];
  }

  lemma WordsOdd(data: seq<byte>)
    requires |data| % 2 == 1
    ensures Words(data) == Words(data[..|data| - 1]) + [data[|data| - 1] as int]
  {
  }

  lemma LastWord(data: seq<byte>)
    requires data != []
    ensures |data| % 2 == 0 ==> Sum(Words(data)) == Sum(Words(data[..|data| - 2])) + WordAt(data, |data| - 2)
    ensures |data| % 2 == 1 ==> Sum(Words(data)) == Sum(Words(data[..|data| - 1])) + data[|data| - 1] as int
  {
    hide Sum, Words;
    if |data| % 2 == 0 {
      WordsEven(data);
      SumPushed(Words(data[..|data| - 2]), WordAt(data, |data| - 2));
    } else {
      WordsOdd(data);
      SumPushed(Words(data[..|data| - 1]), data[|data| - 1] as int);
    }
  }

  lemma NothingToAdd(data: seq<byte>)
    requires data == []
    ensures Sum(Words(data)) == 0
  {
  }

  lemma {:induction false} SumBound(data: seq<byte>)
    ensures Sum(Words(data)) <= FULL * (|data| / 2) + 0xFF * (|data| % 2)
    decreases |data|
  {
    hide Sum, Words;
    if data == [] {
      NothingToAdd(data);
    } else {
      LastWord(data);
      SumBound(if |data| % 2 == 1 then data[..|data| - 1] else data[..|data| - 2]);
    }
  }

  lemma {:induction false} SumOnes(data: seq<byte>)
    requires forall i :: 0 <= i < |data| ==> data[i] == 0xFF
    ensures Sum(Words(data)) == FULL * (|data| / 2) + 0xFF * (|data| % 2)
    decreases |data|
  {
    hide Sum, Words;
    if data == [] {
      NothingToAdd(data);
    } else {
      LastWord(data);
      SumOnes(if |data| % 2 == 1 then data[..|data| - 1] else data[..|data| - 2]);
    }
  }

  /** The 32-bit sum is exact for every content exactly up to 131074 bytes. */
  lemma OverflowExact(n: nat)
    ensures NeverOverflows(n) <==> n <= 131074
  {
    if n <= 131074 {
      forall data: seq<byte> | |data| == n ensures Sum(Words(data)) < WORD_LIMIT {
        SumBound(data);
      }
    } else {
      var data: seq<byte> := seq(n, _ => 0xFF);
      SumOnes(data);
      assert |data| == n && Sum(Words(data)) >= WORD_LIMIT;
    }
  }

  // ---- The code ----

  /** `~sum` as a 16-bit value. */
  function Complement(w: word16): word16 {
    FULL - w
  }

  /** What the code computes, over the 32-bit sum. */
  ghost function Computed(data: seq<byte>): word16 {
    Complement(Folded(Sum(Words(data)) % WORD_LIMIT))
  }

  ghost predicate AlwaysReference(n: nat) {
    forall data: seq<byte> :: |data| == n ==> Computed(data) == Reference(data)
  }

  /** The code computes the RFC 1071 checksum of every content of `n` bytes exactly up to 131074 bytes. */
  lemma ReferenceExact(n: nat)
    ensures AlwaysReference(n) <==> n <= 131074
  {
    if n <= 131074 {
      forall data: seq<byte> | |data| == n ensures Computed(data) == Reference(data) {
        OverflowExact(n);
        FoldedSum(Words(data));
      }
    } else {
      Counterexample(n);
    }
  }

  /** 131075 bytes 0xFF, and zeros after them: the sum exceeds 32 bits by 254. */
  lemma Counterexample(n: nat)
    requires n > 131074
    ensures exists data: seq<byte> :: |data| == n && Computed(data) != Reference(data)
  {
    hide Sum, Words, OnesSum;
    var ones: seq<byte> := seq(131075, _ => 0xFF);
    var data := ones + Zeros(n - 131075);
    SumOnes(ones);
    SumPadded(ones, n - 131075);
    FoldedSum(Words(data));
    assert Sum(Words(data)) == WORD_LIMIT + 254;
    assert |data| == n && Computed(data) != Reference(data);
  }

  function Zeros(z: nat): seq<byte> {
    seq(z, _ => 0)
  }

  lemma {:induction false} SumPadded(data: seq<byte>, z: nat)
    ensures Sum(Words(data + Zeros(z))) == Sum(Words(data))
    decreases z
  {
    hide Sum, Words;
    var r := data + Zeros(z);
    if z == 0 {
      assert r == data;
    } else {
      LastWord(r);
      if |r| % 2 == 1 {
        assert r[..|r| - 1] == data + Zeros(z - 1);
        SumPadded(data, z - 1);
      } else if z > 1 {
        assert r[..|r| - 2] == data + Zeros(z - 2);
        SumPadded(data, z - 2);
      } else {
        LastWord(data);
        assert r[..|r| - 2] == data[..|data| - 1];
      }
    }
  }

  method NetChecksum(data: seq<byte>, length: int) returns (c: word16)
    requires length <= |data|
    ensures var used := data[..if length < 0 then 0 else length];
      && c == Computed(used)
      && (length <= 131074 ==> c == Reference(used))
  {
    hide Folded, Sum, Words, OnesSum;
    ghost var used := data[..if length < 0 then 0 else length];
    var sum := AddUp(data, length);
    c := FoldAndComplement(sum);
    if length <= 131074 {
      OverflowExact(|used|);
      FoldedSum(Words(used));
    }
  }

  lemma NextWord(data: seq<byte>, i: nat)
    requires i % 2 == 0 && i < |data|
    ensures i + 2 <= |data| ==> Sum(Words(data[..i + 2])) == Sum(Words(data[..i])) + WordAt(data, i)
    ensures Sum(Words(data[..i + 1])) == Sum(Words(data[..i])) + data[i] as int
  {
    hide Sum, Words;
    if i + 2 <= |data| {
      assert data[..i + 2][..i] == data[..i];
      LastWord(data[..i + 2]);
    }
    assert data[..i + 1][..i] == data[..i];
    LastWord(data[..i + 1]);
  }

  /** The summing loop; the 32-bit sum wraps. */
  method AddUp(data: seq<byte>, length: int) returns (sum: word)
    requires length <= |data|
    ensures sum == Sum(Words(data[..if length < 0 then 0 else length])) % WORD_LIMIT
  {
    hide Sum, Words;
    ghost var used := data[..if length < 0 then 0 else length];
    sum := 0;
    var left, ptr := length, 0;
    NothingToAdd(used[..0]);
    while left > 1
      invariant 0 <= ptr <= |used| && ptr % 2 == 0 && ptr + (if left < 0 then 0 else left) == |used|
      invariant sum == Sum(Words(used[..ptr])) % WORD_LIMIT
      decreases left
    {
      NextWord(used, ptr);
      WrapAdd(Sum(Words(used[..ptr])), WordAt(used, ptr));
      sum := (sum + WordAt(data, ptr)) % WORD_LIMIT;
      ptr := ptr + 2;
      left := left - 2;
    }
    if left > 0 {
      NextWord(used, ptr);
      WrapAdd(Sum(Words(used[..ptr])), used[ptr]);
      sum := (sum + data[ptr] as int) % WORD_LIMIT;
      ptr := ptr + 1;
    }
    assert used[..ptr] == used;
  }

  lemma WrapAdd(s: nat, w: nat)
    ensures (s % WORD_LIMIT + w) % WORD_LIMIT == (s + w) % WORD_LIMIT
  {
  }

  /** The folding loop. */
  method FoldAndComplement(s: word) returns (c: word16)
    ensures c == Complement(Folded(s))
  {
    var sum := s;
    while sum / 0x1_0000 != 0
      invariant Folded(sum) == Folded(s)
      decreases sum
    {
      FoldStep(sum);
      sum := sum % 0x1_0000 + sum / 0x1_0000;
    }
    c := FULL - sum;
  }

  // ---- Properties of the checksum ----

  lemma {:induction false} SumPrefix(ws: seq<word16>, vs: seq<word16>)
    ensures Sum(ws + vs) == Sum(ws) + Sum(vs)
  {
    if vs == [] {
      assert ws + vs == ws;
    } else {
      assert (ws + vs)[..|ws + vs| - 1] == ws + vs[..|vs| - 1];
      SumPrefix(ws, vs[..|vs| - 1]);
    }
  }

  lemma SumTakeOut(ws: seq<word16>, k: nat)
    requires k < |ws|
    ensures Sum(ws) == Sum(ws[..k] + ws[k + 1..]) + ws[k]
    ensures multiset(ws[..k] + ws[k + 1..]) == multiset(ws) - multiset{ws[k]}
  {
    hide Sum;
    assert ws == ws[..k] + [ws[k]] + ws[k + 1..];
    SumPrefix(ws[..k] + [ws[k]], ws[k + 1..]);
    SumPushed(ws[..k], ws[k]);
    SumPrefix(ws[..k], ws[k + 1..]);
  }

  lemma {:induction false} SumOrder(ws: seq<word16>, vs: seq<word16>)
    requires multiset(ws) == multiset(vs)
    ensures Sum(ws) == Sum(vs)
    decreases |ws|
  {
    if ws == [] {
      assert |multiset(vs)| == 0;
    } else {
      var w := ws[|ws| - 1];
      assert w in multiset(vs);
      var k :| 0 <= k < |vs| && vs[k] == w;
      SumTakeOut(vs, k);
      SumLast(ws);
      SumOrder(ws[..|ws| - 1], vs[..k] + vs[k + 1..]);
    }
  }

  lemma SumLast(ws: seq<word16>)
    requires ws != []
    ensures Sum(ws) == Sum(ws[..|ws| - 1]) + ws[|ws| - 1]
    ensures multiset(ws[..|ws| - 1]) == multiset(ws) - multiset{ws[|ws| - 1]}
  {
    hide Sum;
    var front, w := ws[..|ws| - 1], ws[|ws| - 1];
    LastOut(front, w);
    SumPushed(front, w);
    assert ws == front + [w];
  }

  lemma LastOut(front: seq<word16>, w: word16)
    ensures multiset(front + [w]) - multiset{w} == multiset(front)
  {
  }

  /** The order of the words does not matter. */
  lemma OrderIrrelevant(data: seq<byte>, data': seq<byte>)
    requires multiset(Words(data)) == multiset(Words(data'))
    ensures Reference(data) == Reference(data')
  {
    SumOrder(Words(data), Words(data'));
    FoldedSum(Words(data));
    FoldedSum(Words(data'));
  }

  function Swap(w: word16): word16 {
    w % 0x100 * 0x100 + w / 0x100
  }

  ghost function SwapAll(ws: seq<word16>): (vs: seq<word16>)
    ensures |vs| == |ws|
  {
    if ws == [] then [] else SwapAll(ws[..|ws| - 1]) + [Swap(ws[|ws| - 1])]
  }

  lemma SwapBytes(h: byte, l: byte)
    ensures Swap(h as int * 0x100 + l as int) == l as int * 0x100 + h as int
  {
  }

  /** Swapping the bytes of a word is a rotation, so it respects addition with end-around carry. */
  lemma SwapAdd(a: word16, b: word16)
    ensures OnesAdd(Swap(a), Swap(b)) == Swap(OnesAdd(a, b))
  {
    hide Swap;
    var ah, al, bh, bl := a / 0x100, a % 0x100, b / 0x100, b % 0x100;
    SwapBytes(ah, al);
    SwapBytes(bh, bl);
    var r := OnesAdd(a, b);
    var rh, rl := r / 0x100, r % 0x100;
    SwapBytes(rh, rl);
    var low := al + bl;
    var carry := if low > 0xFF then 1 else 0;
    var high := ah + bh + carry;
    assert a + b == high * 0x100 + (low - carry * 0x100);
    if high <= 0xFF {
      Parts(r, high, low - carry * 0x100);
    } else if low - carry * 0x100 < 0xFF {
      Parts(r, high - 0x100, low - carry * 0x100 + 1);
    } else {
      Parts(r, high - 0x100 + 1, 0);
    }
  }

  lemma Parts(r: word16, h: byte, l: byte)
    requires r == h as int * 0x100 + l as int
    ensures r / 0x100 == h && r % 0x100 == l
  {
  }

  lemma SwapComplement(w: word16)
    ensures Complement(Swap(w)) == Swap(Complement(w))
  {
    var h, l := w / 0x100, w % 0x100;
    Parts(Complement(w), 0xFF - h, 0xFF - l);
  }

  /** Swapping the bytes of every word swaps the bytes of the sum, and so of the checksum. */
  lemma {:induction false} SwapSum(ws: seq<word16>)
    ensures OnesSum(SwapAll(ws)) == Swap(OnesSum(ws))
    ensures Complement(OnesSum(SwapAll(ws))) == Swap(Complement(OnesSum(ws)))
  {
    hide OnesAdd, Swap, Complement;
    if ws == [] {
      SwapBytes(0, 0);
    } else {
      SwapSum(ws[..|ws| - 1]);
      SwapAdd(OnesSum(ws[..|ws| - 1]), ws[|ws| - 1]);
      assert SwapAll(ws)[..|ws| - 1] == SwapAll(ws[..|ws| - 1]);
    }
    SwapComplement(OnesSum(ws));
  }

  /** The block with the bytes of every word swapped. */
  function SwapData(data: seq<byte>): seq<byte>
    requires |data| % 2 == 0
  {
    seq(|data|, i requires 0 <= i < |data| => if i % 2 == 0 then data[i + 1] else data[i - 1])
  }

  lemma SwapAllPushed(ws: seq<word16>, w: word16)
    ensures SwapAll(ws + [w]) == SwapAll(ws) + [Swap(w)]
  {
    assert (ws + [w])[..|ws|] == ws;
  }

  lemma NothingToSwap(data: seq<byte>)
    requires data == []
    ensures SwapData(data) == [] && Words(data) == [] && SwapAll(Words(data)) == []
  {
  }

  lemma {:induction false} SwapDataWords(data: seq<byte>)
    requires |data| % 2 == 0
    ensures Words(SwapData(data)) == SwapAll(Words(data))
    decreases |data|
  {
    hide Words, SwapAll, Swap;
    if data == [] {
      NothingToSwap(data);
    } else {
      var n := |data| - 2;
      SwapDataWords(data[..n]);
      assert SwapData(data)[..n] == SwapData(data[..n]);
      WordsEven(data);
      WordsEven(SwapData(data));
      SwapBytes(data[n + 1], data[n]);
      SwapAllPushed(Words(data[..n]), WordAt(data, n));
    }
  }

  /** Swapping every pair of bytes of a block swaps the bytes of its checksum. */
  lemma ByteOrderIndependent(data: seq<byte>)
    requires |data| % 2 == 0
    ensures Reference(SwapData(data)) == Swap(Reference(data))
  {
    hide Words, SwapAll, OnesSum, Swap, SwapData;
    SwapDataWords(data);
    SwapSum(Words(data));
  }

  // ---- Verification of a stored checksum ----

  /** `data` with the word `w` stored at the even offset `i`, as the assignment to a checksum field does. */
  function WithWord(data: seq<byte>, i: nat, w: word16): (r: seq<byte>)
    requires i + 2 <= |data|
    ensures |r| == |data|
  {
    data[..i] + [w % 0x100, w / 0x100] + data[i + 2..]
  }

  lemma {:induction false} SumWithWord(data: seq<byte>, i: nat, w: word16)
    requires i % 2 == 0 && i + 2 <= |data|
    ensures Sum(Words(WithWord(data, i, w))) == Sum(Words(data)) - WordAt(data, i) + w
    decreases |data|
  {
    hide Sum, Words;
    var r := WithWord(data, i, w);
    var n := if |data| % 2 == 1 then |data| - 1 else |data| - 2;
    LastWord(data);
    LastWord(r);
    if i + 2 <= n {
      assert r[..n] == WithWord(data[..n], i, w);
      SumWithWord(data[..n], i, w);
    } else {
      assert r[..n] == data[..n];
    }
  }

  /**
   The checksum of a block that contains its own checksum is 0: store the checksum, computed with the
   field zeroed, at any even offset, and the sum of the whole is 0xFFFF.
   */
  lemma StoredChecksumVerifies(data: seq<byte>, i: nat)
    requires i % 2 == 0 && i + 2 <= |data| && WordAt(data, i) == 0
    ensures Reference(WithWord(data, i, Reference(data))) == 0
  {
    hide Words;
    var ws, c := Words(data), Reference(data);
    SumWithWord(data, i, c);
    FoldedSum(ws);
    FoldedSum(Words(WithWord(data, i, c)));
    if Sum(ws) > 0 {
      var q := (Sum(ws) - 1) / FULL;
      assert Sum(ws) + c == FULL * (q + 1);
      ModShift(FULL - 1, q);
    }
  }

  /** How net_ping completes a header: zero the field, compute, store. */
  method Seal(header: array<byte>, i: nat)
    requires i % 2 == 0 && i + 2 <= header.Length <= 131074
    modifies header
    ensures Reference(header[..]) == 0
    ensures forall k :: 0 <= k < header.Length && k != i && k != i + 1 ==> header[k] == old(header[k])
  {
    hide Words, OnesSum;
    header[i], header[i + 1] := 0, 0;
    ghost var zeroed := header[..];
    var c := NetChecksum(header[..], header.Length);
    assert zeroed[..header.Length] == zeroed;
    header[i], header[i + 1] := c % 0x100, c / 0x100;
    assert header[..] == WithWord(zeroed, i, c);
    StoredChecksumVerifies(zeroed, i);
  }
}
