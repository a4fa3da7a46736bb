/** Printing and parsing of IPv4 addresses, kernel/net.c. */
module DottedQuad {
  import opened Memory
  import opened CStrings

  const DOT: byte := 0x2E
  const ZERO: byte := 0x30

  // ---- Bits of words ----

  function Pow2(k: nat): (p: nat)
    ensures p > 0
  {
    if k == 0 then 1 else 2 * Pow2(k - 1)
  }

  /** Bitwise or. */
  function Or(a: nat, b: nat): nat
    decreases a + b
  {
    if a == 0 && b == 0 then 0
    else 2 * Or(a / 2, b / 2) + (if a % 2 == 1 || b % 2 == 1 then 1 else 0)
  }

  ghost predicate LowBitsClear(a: nat, k: nat) {
    k == 0 || (a % 2 == 0 && LowBitsClear(a / 2, k - 1))
  }

  /** Where the low `k` bits of `a` are 0 and `b` has only those, or is addition. */
  lemma {:induction false} OrIsPlus(a: nat, b: nat, k: nat)
    requires LowBitsClear(a, k) && b < Pow2(k)
    ensures Or(a, b) == a + b
    decreases k
  {
    if k > 0 {
      OrIsPlus(a / 2, b / 2, k - 1);
    } else {
      OrZero(a);
    }
  }

  lemma {:induction false} MultipleClear(m: nat, k: nat)
    ensures LowBitsClear(m * Pow2(k), k)
  {
    if k > 0 {
      MultipleClear(m, k - 1);
      Doubled(m, Pow2(k - 1));
    }
  }

  lemma Doubled(m: nat, p: nat)
    ensures m * (2 * p) % 2 == 0 && m * (2 * p) / 2 == m * p
  {
    assert m * (2 * p) == 2 * (m * p);
  }

  lemma {:induction false} OrZero(a: nat)
    ensures Or(a, 0) == a
  {
    if a > 0 { OrZero(a / 2); }
  }

  lemma HalfFirst(x: nat, p: nat)
    requires p > 0
    ensures x / (2 * p) == x / 2 / p
  {
    var q, r := x / (2 * p), x % (2 * p);
    assert x == 2 * (q * p) + r && x / 2 == q * p + r / 2 && r / 2 < p;
    DivOf(q, p, r / 2);
  }

  lemma DivOf(q: nat, p: nat, r: nat)
    requires r < p
    ensures (q * p + r) / p == q
  {
    var x := q * p + r;
    var y := x / p;
    Division(x, p);
    if y < q { Monotone(y + 1, q, p); }
    if q < y { Monotone(q + 1, y, p); }
  }

  lemma Division(x: nat, p: nat)
    requires p > 0
    ensures x / p * p <= x < (x / p + 1) * p
  {
    assert x == p * (x / p) + x % p;
  }

  lemma Monotone(a: nat, b: nat, p: nat)
    requires a <= b
    ensures a * p <= b * p && (a + 1) * p == a * p + p
  {
  }

  /** Every bit of the result is set exactly if it is set in one of the arguments. */
  lemma {:induction false} OrBits(a: nat, b: nat, k: nat)
    ensures Or(a, b) / Pow2(k) % 2 == 1 <==> a / Pow2(k) % 2 == 1 || b / Pow2(k) % 2 == 1
    decreases k
  {
    if k > 0 {
      OrBits(a / 2, b / 2, k - 1);
      OrHalf(a, b);
      HalfFirst(a, Pow2(k - 1));
      HalfFirst(b, Pow2(k - 1));
      HalfFirst(Or(a, b), Pow2(k - 1));
    } else {
      OrHalf(a, b);
    }
  }

  lemma OrHalf(a: nat, b: nat)
    ensures Or(a, b) / 2 == Or(a / 2, b / 2) && (Or(a, b) % 2 == 1 <==> a % 2 == 1 || b % 2 == 1)
  {
  }

  lemma Pow2Values()
    ensures Pow2(0) == 1 && Pow2(8) == 0x100 && Pow2(16) == 0x1_0000 && Pow2(24) == 0x100_0000
    ensures Pow2(32) == WORD_LIMIT
  {
    assert Pow2(4) == 16;
    assert Pow2(8) == 0x100;
    assert Pow2(12) == 0x1000;
    assert Pow2(16) == 0x1_0000;
    assert Pow2(20) == 0x10_0000;
    assert Pow2(24) == 0x100_0000;
    assert Pow2(28) == 0x1000_0000;
  }

  /** `octet << shift` on 32 bits. */
  function Shifted(octet: word, shift: nat): word {
    octet * Pow2(shift) % WORD_LIMIT
  }

  // ---- Canonical text ----

  ghost predicate Digits(d: seq<byte>) {
    forall k :: 0 <= k < |d| ==> 0x30 <= d[k] <= 0x39
  }

  /** The number that a sequence of digits stands for. */
  ghost function Value(d: seq<byte>): nat
    requires Digits(d)
  {
    if d == [] then 0 else 10 * Value(d[..|d| - 1]) + (d[|d| - 1] - 0x30)
  }

  /** Digits without a leading zero. */
  ghost predicate Canonical(d: seq<byte>) {
    d != [] && Digits(d) && (|d| > 1 ==> d[0] != 0x30)
  }

  function Decimal(n: byte): (d: seq<byte>)
    ensures 1 <= |d| <= 3 && Canonical(d) && Value(d) == n
  {
    if n >= 100 then
      ThreeDigits(ZERO + n / 100, ZERO + n % 100 / 10, ZERO + n % 100 % 10);
      [ZERO + n / 100, ZERO + n % 100 / 10, ZERO + n % 100 % 10]
    else if n >= 10 then
      TwoDigits(ZERO + n / 10, ZERO + n % 10);
      [ZERO + n / 10, ZERO + n % 10]
    else
      OneDigit(ZERO + n);
      [ZERO + n]
  }

  lemma ThreeDigits(a: byte, b: byte, c: byte)
    requires 0x30 <= a <= 0x39 && 0x30 <= b <= 0x39 && 0x30 <= c <= 0x39
    ensures Digits([a, b, c]) && Value([a, b, c]) == 100 * (a - 0x30) + 10 * (b - 0x30) + (c - 0x30)
  {
    TwoDigits(a, b);
    assert [a, b, c][..2] == [a, b];
  }

  lemma TwoDigits(a: byte, b: byte)
    requires 0x30 <= a <= 0x39 && 0x30 <= b <= 0x39
    ensures Digits([a, b]) && Value([a, b]) == 10 * (a - 0x30) + (b - 0x30)
  {
    OneDigit(a);
    assert [a, b][..1] == [a];
  }

  lemma OneDigit(a: byte)
    requires 0x30 <= a <= 0x39
    ensures Digits([a]) && Value([a]) == a - 0x30
  {
    assert [a][..0] == [];
  }

  lemma {:induction false} ManyDigits(d: seq<byte>)
    requires Canonical(d) && |d| > 1
    ensures Value(d) >= 10
  {
    if |d| > 2 {
      ManyDigits(d[..|d| - 1]);
    } else {
      TwoDigits(d[0], d[1]);
      assert d == [d[0], d[1]];
    }
  }

  /** A number has one decimal text without a leading zero. */
  lemma {:induction false} CanonicalUnique(d: seq<byte>, e: seq<byte>)
    requires Canonical(d) && Canonical(e) && Value(d) == Value(e)
    ensures d == e
    decreases |d|
  {
    if |d| > 1 { ManyDigits(d); }
    if |e| > 1 { ManyDigits(e); }
    var m, n := |d| - 1, |e| - 1;
    assert d == d[..m] + [d[m]] && e == e[..n] + [e[n]];
    if m > 0 && n > 0 {
      CanonicalUnique(d[..m], e[..n]);
    } else {
      assert m == 0 ==> d[..m] == [];
      assert n == 0 ==> e[..n] == [];
    }
  }

  /** Four decimal numbers without leading zeros, separated by dots. */
  function Quad(a: byte, b: byte, c: byte, d: byte): seq<byte> {
    Decimal(a) + [DOT] + Decimal(b) + [DOT] + Decimal(c) + [DOT] + Decimal(d)
  }

  function Octet(ip: word, i: nat): byte
    requires i < 4
  {
    if i == 3 then ip / 0x100_0000 else if i == 2 then ip / 0x1_0000 % 0x100
        else if i == 1 then ip / 0x100 % 0x100 else ip % 0x100
  }

  function Print(ip: word): seq<byte> {
    Quad(Octet(ip, 3), Octet(ip, 2), Octet(ip, 1), Octet(ip, 0))
  }

  lemma OctetsOf(a: byte, b: byte, c: byte, d: byte)
    ensures var ip := a * 0x100_0000 + b * 0x1_0000 + c * 0x100 + d;
      Octet(ip, 3) == a && Octet(ip, 2) == b && Octet(ip, 1) == c && Octet(ip, 0) == d
  {
  }

  lemma PrintQuad(ip: word, a: byte, b: byte, c: byte, d: byte)
    requires ip == a * 0x100_0000 + b * 0x1_0000 + c * 0x100 + d
    ensures Print(ip) == Quad(a, b, c, d)
  {
    hide Quad, Octet;
    OctetsOf(a, b, c, d);
  }

  /** The printed text is the one with these four numbers, without leading zeros, and a dot between any two. */
  lemma PrintExact(ip: word, a: seq<byte>, b: seq<byte>, c: seq<byte>, d: seq<byte>)
    requires Canonical(a) && Canonical(b) && Canonical(c) && Canonical(d)
    requires Value(a) < 0x100 && Value(b) < 0x100 && Value(c) < 0x100 && Value(d) < 0x100
    requires ip == Value(a) * 0x100_0000 + Value(b) * 0x1_0000 + Value(c) * 0x100 + Value(d)
    ensures Print(ip) == a + [0x2E] + b + [0x2E] + c + [0x2E] + d
  {
    hide Decimal, Print, Value, Digits;
    PrintQuad(ip, Value(a), Value(b), Value(c), Value(d));
    CanonicalUnique(Decimal(Value(a)), a);
    CanonicalUnique(Decimal(Value(b)), b);
    CanonicalUnique(Decimal(Value(c)), c);
    CanonicalUnique(Decimal(Value(d)), d);
  }

  /** `t` is four numbers without leading zeros, the bytes of `ip` from the top, with a dot between any two. */
  ghost predicate DottedText(t: seq<byte>, ip: word) {
    exists a: seq<byte>, b: seq<byte>, c: seq<byte>, d: seq<byte> ::
      && Canonical(a) && Canonical(b) && Canonical(c) && Canonical(d)
      && Value(a) == ip / 0x100_0000 && Value(b) == ip / 0x1_0000 % 0x100
      && Value(c) == ip / 0x100 % 0x100 && Value(d) == ip % 0x100
      && t == a + [0x2E] + b + [0x2E] + c + [0x2E] + d
  }

  lemma PrintDotted(ip: word)
    ensures DottedText(Print(ip), ip)
  {
    hide Decimal, Value, Digits, Canonical;
    var a, b, c, d := Decimal(Octet(ip, 3)), Decimal(Octet(ip, 2)), Decimal(Octet(ip, 1)), Decimal(Octet(ip, 0));
    assert Print(ip) == a + [0x2E] + b + [0x2E] + c + [0x2E] + d;
  }

  /** 10.0.2.15, the address of the machine. */
  lemma PrintedAddress()
    ensures Print(0x0A00_020F) == [0x31, 0x30, 0x2E, 0x30, 0x2E, 0x32, 0x2E, 0x31, 0x35]
  {
    hide Print, Value, Digits, Canonical;
    PrintQuad(0x0A00_020F, 10, 0, 2, 15);
  }

  // ---- The parser ----

  /** The variables of ip_from_string. */
  datatype Scan = Scan(ip: nat, octet: word, shift: int)

  /** One character; a digit extends the octet, a dot stores it, and everything else is skipped. */
  function Step(s: Scan, c: byte): Scan {
    if ZERO <= c <= ZERO + 9 then s.(octet := (s.octet * 10 + (c - ZERO)) % WORD_LIMIT)
    else if c == DOT && s.shift >= 0 then Scan(Or(s.ip, Shifted(s.octet, s.shift)), 0, s.shift - 8)
    else s
  }

  ghost function ScanText(t: seq<byte>): Scan {
    if t == [] then Scan(0, 0, 24) else Step(ScanText(t[..|t| - 1]), t[|t| - 1])
  }

  ghost function Parse(t: seq<byte>): nat {
    var s := ScanText(t);
    if s.shift >= 0 then Or(s.ip, Shifted(s.octet, s.shift)) else s.ip
  }

  lemma ScanMore(t: seq<byte>, c: byte)
    ensures ScanText(t + [c]) == Step(ScanText(t), c)
  {
    assert (t + [c])[..|t|] == t;
  }

  lemma ScanDigit(t: seq<byte>, d: nat)
    requires d < 10 && ScanText(t).octet < 100
    ensures ScanText(t + [ZERO + d]) == ScanText(t).(octet := ScanText(t).octet * 10 + d)
  {
    hide ScanText;
    ScanMore(t, ZERO + d);
  }

  /** The digits of `n` are read back as `n`. */
  lemma ScanDecimal(t: seq<byte>, n: byte)
    requires ScanText(t).octet == 0
    ensures ScanText(t + Decimal(n)) == ScanText(t).(octet := n)
  {
    hide ScanText;
    if n >= 100 {
      var d0, d1, d2: byte := ZERO + n / 100, ZERO + n % 100 / 10, ZERO + n % 100 % 10;
      ScanDigit(t, n / 100);
      ScanDigit(t + [d0], n % 100 / 10);
      ScanDigit(t + [d0] + [d1], n % 100 % 10);
      assert t + Decimal(n) == t + [d0] + [d1] + [d2];
    } else if n >= 10 {
      var d0, d1: byte := ZERO + n / 10, ZERO + n % 10;
      ScanDigit(t, n / 10);
      ScanDigit(t + [d0], n % 10);
      assert t + Decimal(n) == t + [d0] + [d1];
    } else {
      ScanDigit(t, n);
    }
  }

  /** `m` shifted left by `shift` bits. */
  function Place(m: nat, shift: nat): nat {
    m * Pow2(shift)
  }

  lemma Fits(n: byte, shift: nat)
    requires shift in {0, 8, 16, 24}
    ensures Shifted(n, shift) == n * Pow2(shift) < Pow2(shift + 8)
    ensures Pow2(shift + 8) == 0x100 * Pow2(shift)
  {
    hide Pow2;
    Pow2Values();
  }

  /** A byte stored below the bytes `m`. */
  lemma OrByte(m: nat, n: byte, shift: nat)
    requires shift in {0, 8, 16, 24}
    ensures Or(m * Pow2(shift + 8), Shifted(n, shift)) == (0x100 * m + n) * Pow2(shift)
  {
    hide Or, Pow2, LowBitsClear, Shifted;
    Fits(n, shift);
    MultipleClear(m, shift + 8);
    OrIsPlus(m * Pow2(shift + 8), n * Pow2(shift), shift + 8);
    assert m * (0x100 * Pow2(shift)) == (0x100 * m) * Pow2(shift);
  }

  /** A number and a dot add the number at its place. */
  lemma ScanField(t: seq<byte>, n: byte, m: nat, shift: nat)
    requires shift in {0, 8, 16, 24} && ScanText(t) == Scan(Place(m, shift + 8), 0, shift)
    ensures ScanText(t + Decimal(n) + [DOT]) == Scan(Place(0x100 * m + n, shift), 0, shift - 8)
  {
    hide ScanText, Or, Pow2, Shifted, Decimal;
    ScanDecimal(t, n);
    ScanMore(t + Decimal(n), DOT);
    OrByte(m, n, shift);
  }

  /** The parse of a dotted quad is the number with these bytes. */
  lemma ParseQuad(a: byte, b: byte, c: byte, d: byte)
    ensures Parse(Quad(a, b, c, d)) == a * 0x100_0000 + b * 0x1_0000 + c * 0x100 + d
  {
    hide Decimal, Or, ScanText, Pow2, Shifted;
    Pow2Values();
    var t1 := [] + Decimal(a) + [DOT];
    var t2 := t1 + Decimal(b) + [DOT];
    var t3 := t2 + Decimal(c) + [DOT];
    ScanNothing();
    ScanField([], a, 0, 24);
    ScanField(t1, b, a, 16);
    ScanField(t2, c, 0x100 * a + b, 8);
    ScanDecimal(t3, d);
    assert Quad(a, b, c, d) == t3 + Decimal(d);
    OrByte(0x100 * (0x100 * a + b) + c, d, 0);
  }

  lemma ScanNothing()
    ensures ScanText([]) == Scan(0, 0, 24)
  {
  }

  /** Parsing what was printed gives the address back, for every address. */
  lemma ParsePrint(ip: word)
    ensures Parse(Print(ip)) == ip
  {
    hide Quad, Parse;
    ParseQuad(Octet(ip, 3), Octet(ip, 2), Octet(ip, 1), Octet(ip, 0));
  }

  /** Printing the parse of a canonical dotted quad gives the text back. */
  lemma PrintParse(a: byte, b: byte, c: byte, d: byte)
    ensures 0 <= Parse(Quad(a, b, c, d)) < WORD_LIMIT && Print(Parse(Quad(a, b, c, d))) == Quad(a, b, c, d)
  {
    hide Quad, Parse;
    ParseQuad(a, b, c, d);
    OctetsOf(a, b, c, d);
  }

  /** Texts of one to four fields of digits, with dots between them. */
  ghost function FieldsText(fs: seq<seq<byte>>): seq<byte>
    requires fs != []
  {
    if |fs| == 1 then fs[0] else FieldsText(fs[..|fs| - 1]) + [0x2E] + fs[|fs| - 1]
  }

  /** The number of each field, on 32 bits, shifted to its place and cut to 32 bits again, or-ed together. */
  ghost function FieldsOr(fs: seq<seq<byte>>): nat
    requires |fs| <= 4 && forall k :: 0 <= k < |fs| ==> Digits(fs[k])
  {
    if fs == [] then 0
    else Or(FieldsOr(fs[..|fs| - 1]), Value(fs[|fs| - 1]) % WORD_LIMIT * Pow2(32 - 8 * |fs|) % WORD_LIMIT)
  }

  lemma TimesTen(v: nat, d: nat)
    ensures (v % WORD_LIMIT * 10 + d) % WORD_LIMIT == (10 * v + d) % WORD_LIMIT
  {
    var q := v / WORD_LIMIT;
    assert 10 * v + d == (v % WORD_LIMIT * 10 + d) + WORD_LIMIT * (10 * q);
  }

  lemma {:induction false} ScanDigits(t: seq<byte>, ds: seq<byte>)
    requires ScanText(t).octet == 0 && Digits(ds)
    ensures ScanText(t + ds) == ScanText(t).(octet := Value(ds) % WORD_LIMIT)
    decreases |ds|
  {
    hide ScanText;
    if ds == [] {
      assert t + ds == t;
    } else {
      var p, c := ds[..|ds| - 1], ds[|ds| - 1];
      ScanDigits(t, p);
      ScanMore(t + p, c);
      assert t + ds == t + p + [c];
      TimesTen(Value(p), c - 0x30);
    }
  }

  lemma {:induction false} ScanFields(fs: seq<seq<byte>>)
    requires 1 <= |fs| <= 4 && forall k :: 0 <= k < |fs| ==> Digits(fs[k])
    ensures ScanText(FieldsText(fs)) ==
            Scan(FieldsOr(fs[..|fs| - 1]), Value(fs[|fs| - 1]) % WORD_LIMIT, 32 - 8 * |fs|)
    decreases |fs|
  {
    hide ScanText, Or, Pow2, Value, Digits;
    var n := |fs|;
    if n == 1 {
      ScanNothing();
      ScanDigits([], fs[0]);
      assert [] + fs[0] == fs[0];
    } else {
      var front := fs[..n - 1];
      var t := FieldsText(front);
      ScanFields(front);
      assert front[|front| - 1] == fs[n - 2];
      ScanMore(t, DOT);
      ScanDigits(t + [DOT], fs[n - 1]);
    }
  }

  /** What any text with at most three dots parses to, whatever the length and the values of its fields. */
  lemma ParseFields(fs: seq<seq<byte>>)
    requires 1 <= |fs| <= 4 && forall k :: 0 <= k < |fs| ==> Digits(fs[k])
    ensures Parse(FieldsText(fs)) == FieldsOr(fs)
  {
    hide ScanText, Or, Pow2, Value, Digits;
    ScanFields(fs);
  }

  /** The digits and dots of a text. */
  ghost function Significant(t: seq<byte>): seq<byte> {
    if t == [] then []
    else
      var c := t[|t| - 1];
      Significant(t[..|t| - 1]) + (if ZERO <= c <= ZERO + 9 || c == DOT then [c] else [])
  }

  /** Every other character is skipped without effect. */
  lemma {:induction false} OthersSkipped(t: seq<byte>)
    ensures ScanText(Significant(t)) == ScanText(t)
  {
    hide Or, Shifted;
    if t != [] {
      OthersSkipped(t[..|t| - 1]);
      ScanMore(Significant(t[..|t| - 1]), t[|t| - 1]);
      ScanMore(t[..|t| - 1], t[|t| - 1]);
      assert t[..|t| - 1] + [t[|t| - 1]] == t;
      if Significant(t) == Significant(t[..|t| - 1]) + [] {
        assert Significant(t) == Significant(t[..|t| - 1]);
      }
    }
  }

  // ---- The code ----

  ghost function Dots(t: seq<byte>): nat {
    if t == [] then 0 else Dots(t[..|t| - 1]) + (if t[|t| - 1] == DOT then 1 else 0)
  }

  lemma {:induction false} OrBound(a: nat, b: nat, k: nat)
    requires a < Pow2(k) && b < Pow2(k)
    ensures Or(a, b) < Pow2(k)
  {
    if k > 0 { OrBound(a / 2, b / 2, k - 1); }
  }

  /** A shift by a negative amount is undefined, so at most three dots. */
  method IpFromString(str: seq<byte>) returns (ip: word)
    requires 0 in str && Dots(Text(str)) <= 3
    ensures ip as nat == Parse(Text(str))
  {
    hide Or, Shifted, Pow2, Text;
    ghost var t := Text(str);
    ip := 0;
    var octet: word, shift, i := 0, 24, 0;
    Pow2Values();
    while str[i] != 0
      invariant 0 <= i <= |t|
      invariant ScanText(t[..i]) == Scan(ip, octet, shift) && shift == 24 - 8 * Dots(t[..i])
      decreases |t| - i
    {
      assert str[i] == t[i];
      assert t[..i + 1][..i] == t[..i];
      DotsPrefix(t, i + 1);
      if ZERO <= str[i] <= ZERO + 9 {
        octet := (octet * 10 + (str[i] - ZERO)) % WORD_LIMIT;
      } else if str[i] == DOT {
        OrBound(ip, Shifted(octet, shift), 32);
        ip := Or(ip, Shifted(octet, shift));
        shift := shift - 8;
        octet := 0;
      }
      i := i + 1;
    }
    TextIs(str, i);
    assert t[..i] == t;
    OrBound(ip, Shifted(octet, shift), 32);
    ip := Or(ip, Shifted(octet, shift));
  }

  lemma DotsPrefix(t: seq<byte>, i: nat)
    requires i <= |t|
    ensures Dots(t[..i]) <= Dots(t)
  {
    if i == |t| {
      assert t[..i] == t;
    } else {
      assert t[..|t| - 1][..i] == t[..i];
      DotsPrefix(t[..|t| - 1], i);
    }
  }

  /** The numbers from byte 3 down to byte `k`, with the dots that follow them. */
  ghost function PrintDownTo(ip: word, k: nat): seq<byte>
    requires k <= 4
    decreases 4 - k
  {
    if k == 4 then [] else PrintDownTo(ip, k + 1) + Decimal(Octet(ip, k)) + (if k > 0 then [DOT] else [])
  }

  lemma PrintedAll(ip: word)
    ensures PrintDownTo(ip, 0) == Print(ip)
    ensures |Print(ip)| <= 15
  {
    hide Decimal, Octet;
    assert PrintDownTo(ip, 3) == Decimal(Octet(ip, 3)) + [DOT];
    assert PrintDownTo(ip, 2) == PrintDownTo(ip, 3) + Decimal(Octet(ip, 2)) + [DOT];
    assert PrintDownTo(ip, 1) == PrintDownTo(ip, 2) + Decimal(Octet(ip, 1)) + [DOT];
    assert PrintDownTo(ip, 0) == PrintDownTo(ip, 1) + Decimal(Octet(ip, 0));
  }

  lemma {:induction false} PrintLength(ip: word, k: nat)
    requires k <= 4
    ensures |PrintDownTo(ip, k)| <= 4 * (4 - k)
    decreases 4 - k
  {
    hide Decimal, Octet;
    if k < 4 { PrintLength(ip, k + 1); }
  }

  method PutDecimal(str: array<byte>, at: nat, n: byte) returns (pos: nat)
    requires at + 3 <= str.Length
    modifies str
    ensures pos == at + |Decimal(n)| && str[..pos] == old(str[..at]) + Decimal(n)
  {
    pos := at;
    var octet := n;
    if octet >= 100 {
      str[pos] := ZERO + octet / 100;
      octet := octet % 100;
      str[pos + 1] := ZERO + octet / 10;
      str[pos + 2] := ZERO + octet % 10;
      pos := pos + 3;
    } else if octet >= 10 {
      str[pos] := ZERO + octet / 10;
      str[pos + 1] := ZERO + octet % 10;
      pos := pos + 2;
    } else {
      str[pos] := ZERO + octet;
      pos := pos + 1;
    }
  }

  /** Sixteen bytes are enough for every address and its NUL. */
  method IpToString(ip: word, str: array<byte>)
    requires str.Length >= 16
    modifies str
    ensures |Print(ip)| <= 15 && str[..|Print(ip)|] == Print(ip) && str[|Print(ip)|] == 0
    ensures DottedText(str[..|Print(ip)|], ip)
  {
    hide Decimal, Octet, Print, DottedText;
    var pos: nat := 0;
    PrintedAll(ip);
    PrintDotted(ip);
    for i := 4 downto 0
      invariant pos <= 4 * (4 - i) && pos <= str.Length && str[..pos] == PrintDownTo(ip, i)
    {
      PrintLength(ip, i);
      pos := PutDecimal(str, pos, Octet(ip, i));
      if i > 0 {
        str[pos] := DOT;
        pos := pos + 1;
      }
    }
    str[pos] := 0;
  }
}
