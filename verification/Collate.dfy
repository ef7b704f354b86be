/**
  Collation rules for keys, and the minimal little-endian encoding of numbers and extents.

  Each comparison loop is proved to compute a mathematical order (`CmpNat`, `CmpLex`,
  `CmpExtent`), and the laws of those orders are what the B-tree relies on.
*/
module Collate {
  import opened IndexBlock

  const U64_MAX_SIZE := 8
  const TWO_64 := 0x1_0000_0000_0000_0000

  /** Three-way comparison of numbers. */
  function CmpNat(a: nat, b: nat): int {
    if a > b then 1 else if a < b then -1 else 0
  }

  // ----- binary keys: big-endian naturals of any length -----

  function BigEndian(b: Bytes): nat {
    if b == [] then 0 else BigEndian(b[..|b| - 1]) * 256 + b[|b| - 1]
  }

  function Pow256(n: nat): (p: nat)
    ensures p > 0
  {
    if n == 0 then 1 else 256 * Pow256(n - 1)
  }

  lemma {:induction false} BigEndianHead(b: Bytes)
    requires b != []
    ensures BigEndian(b) == b[0] * Pow256(|b| - 1) + BigEndian(b[1..])
  {
    if |b| == 1 {
      assert b[..0] == [] && b[1..] == [];
    } else {
      var init := b[..|b| - 1];
      BigEndianHead(init);
      assert init[1..] == b[1..][..|b| - 2];
      assert b[1..][|b| - 2] == b[|b| - 1];
      calc {
        BigEndian(b);
        (b[0] * Pow256(|b| - 2) + BigEndian(init[1..])) * 256 + b[|b| - 1];
        b[0] * (256 * Pow256(|b| - 2)) + (BigEndian(init[1..]) * 256 + b[|b| - 1]);
      }
    }
  }

  lemma {:induction false} BigEndianBound(b: Bytes)
    ensures BigEndian(b) < Pow256(|b|)
  {
    if b != [] {
      BigEndianBound(b[..|b| - 1]);
    }
  }

  lemma {:induction false} Pow256Grows(m: nat, n: nat)
    requires m <= n
    ensures 1 <= Pow256(m) <= Pow256(n)
  {
    if m < n {
      Pow256Grows(m, n - 1);
    } else if m > 0 {
      Pow256Grows(m - 1, n - 1);
    }
  }

  lemma MulMono(x: nat, y: nat, p: nat)
    requires x <= y
    ensures x * p <= y * p
  {
  }

  /** A longer number without leading zeros is larger. */
  lemma LongerIsLarger(a: Bytes, b: Bytes)
    requires |a| > |b| && a[0] != 0
    ensures BigEndian(a) > BigEndian(b)
  {
    hide BigEndian, Pow256;
    BigEndianHead(a);
    BigEndianBound(b);
    Pow256Grows(|b|, |a| - 1);
    MulMono(1, a[0], Pow256(|a| - 1));
  }

  /** Numbers of equal length compare by their first differing digit. */
  lemma FirstDigit(a: Bytes, b: Bytes)
    requires |a| == |b| && a != [] && a[0] > b[0]
    ensures BigEndian(a) > BigEndian(b)
  {
    hide BigEndian, Pow256;
    BigEndianHead(a);
    BigEndianHead(b);
    BigEndianBound(b[1..]);
    MulMono(b[0] + 1, a[0], Pow256(|a| - 1));
    assert (b[0] + 1) * Pow256(|a| - 1) == b[0] * Pow256(|a| - 1) + Pow256(|a| - 1);
  }

  lemma SameDigit(a: Bytes, b: Bytes)
    requires |a| == |b| && a != [] && a[0] == b[0]
    ensures CmpNat(BigEndian(a), BigEndian(b)) == CmpNat(BigEndian(a[1..]), BigEndian(b[1..]))
  {
    hide BigEndian, Pow256;
    BigEndianHead(a);
    BigEndianHead(b);
  }

  method LeadingZeros(b: Bytes) returns (i: nat)
    ensures i <= |b| && (forall k :: 0 <= k < i ==> b[k] == 0) && (i < |b| ==> b[i] != 0)
    ensures BigEndian(b[i..]) == BigEndian(b)
  {
    i := 0;
    while i < |b| && b[i] == 0
      invariant i <= |b| && (forall k :: 0 <= k < i ==> b[k] == 0) && BigEndian(b[i..]) == BigEndian(b)
    {
      BigEndianHead(b[i..]);
      i := i + 1;
    }
  }

  /** The comparison of two binary keys is the comparison of the numbers they spell. */
  method CollateBinary(b1: Bytes, b2: Bytes) returns (r: int)
    requires b1 != [] && b2 != []
    ensures r == CmpNat(BigEndian(b1), BigEndian(b2))
  {
    hide BigEndian;
    var i := LeadingZeros(b1);
    var j := LeadingZeros(b2);
    if |b1| - i > |b2| - j {
      LongerIsLarger(b1[i..], b2[j..]);
      return 1;
    }
    if |b1| - i < |b2| - j {
      LongerIsLarger(b2[j..], b1[i..]);
      return -1;
    }
    while i < |b1|
      invariant i <= |b1| && j <= |b2| && |b1| - i == |b2| - j
      invariant CmpNat(BigEndian(b1[i..]), BigEndian(b2[j..])) == CmpNat(BigEndian(b1), BigEndian(b2))
    {
      if b1[i] > b2[j] {
        FirstDigit(b1[i..], b2[j..]);
        return 1;
      }
      if b1[i] < b2[j] {
        FirstDigit(b2[j..], b1[i..]);
        return -1;
      }
      SameDigit(b1[i..], b2[j..]);
      i, j := i + 1, j + 1;
    }
    assert b1[i..] == [] == b2[j..];
    return 0;
  }

  // ----- strings: lexicographic after folding each character -----

  function CmpLex<T>(fold: T -> nat, s: seq<T>, t: seq<T>): int {
    if s == [] || t == [] then CmpNat(|s|, |t|)
    else if fold(s[0]) != fold(t[0]) then CmpNat(fold(s[0]), fold(t[0]))
    else CmpLex(fold, s[1..], t[1..])
  }

  /** Both string collations: the same loop over one- or two-byte characters. */
  method CollateString<T>(fold: T -> nat, s1: seq<T>, s2: seq<T>) returns (r: int)
    requires s1 != [] && s2 != []
    ensures r == CmpLex(fold, s1, s2)
  {
    var i := 0;
    while i < |s1| && i < |s2|
      invariant i <= |s1| && i <= |s2|
      invariant CmpLex(fold, s1[i..], s2[i..]) == CmpLex(fold, s1, s2)
    {
      var c1, c2 := fold(s1[i]), fold(s2[i]);
      if c1 > c2 {
        return 1;
      }
      if c1 < c2 {
        return -1;
      }
      i := i + 1;
    }
    if |s1| > |s2| {
      return 1;
    }
    if |s1| < |s2| {
      return -1;
    }
    return 0;
  }

  lemma {:induction false} CmpLexSym<T>(fold: T -> nat, s: seq<T>, t: seq<T>)
    ensures CmpLex(fold, s, t) == -CmpLex(fold, t, s)
    ensures CmpLex(fold, s, s) == 0
    decreases |s|
  {
    if s != [] {
      if t != [] {
        CmpLexSym(fold, s[1..], t[1..]);
      } else {
        CmpLexSym(fold, s[1..], t);
      }
    }
  }

  lemma {:induction false} CmpLexTrans<T>(fold: T -> nat, s: seq<T>, t: seq<T>, u: seq<T>)
    requires CmpLex(fold, s, t) <= 0 && CmpLex(fold, t, u) <= 0
    ensures CmpLex(fold, s, u) <= 0
    ensures CmpLex(fold, s, t) < 0 || CmpLex(fold, t, u) < 0 ==> CmpLex(fold, s, u) < 0
    decreases |s|
  {
    if s != [] && t != [] && u != [] && fold(s[0]) == fold(t[0]) == fold(u[0]) {
      CmpLexTrans(fold, s[1..], t[1..], u[1..]);
    }
  }

  /** Strings the comparison calls equal are equal letter by letter once folded, and conversely. */
  lemma {:induction false} CmpLexEqual<T>(fold: T -> nat, s: seq<T>, t: seq<T>)
    ensures CmpLex(fold, s, t) == 0 <==>
            |s| == |t| && forall i :: 0 <= i < |s| ==> fold(s[i]) == fold(t[i])
    decreases |s|
  {
    if s != [] && t != [] {
      CmpLexEqual(fold, s[1..], t[1..]);
      if fold(s[0]) == fold(t[0]) && |s| == |t|
          && (forall i :: 0 <= i < |s[1..]| ==> fold(s[1..][i]) == fold(t[1..][i])) {
        forall i | 0 <= i < |s| ensures fold(s[i]) == fold(t[i]) {
          if i > 0 {
            assert s[1..][i - 1] == s[i] && t[1..][i - 1] == t[i];
          }
        }
      }
    }
  }

  /** The first `k` letters agree once folded, and then `s` ends and `t` goes on, or both go on and the letter
      of `s` is the smaller one. */
  predicate LexBelow<T>(fold: T -> nat, s: seq<T>, t: seq<T>, k: nat) {
    && k <= |s| && k < |t| && (forall i :: 0 <= i < k ==> fold(s[i]) == fold(t[i]))
    && (k < |s| ==> fold(s[k]) < fold(t[k]))
  }

  /** The order of strings: by the first letter that differs, or else the shorter one first. */
  lemma {:induction false} CmpLexLess<T>(fold: T -> nat, s: seq<T>, t: seq<T>)
    ensures CmpLex(fold, s, t) < 0 <==> exists k: nat :: LexBelow(fold, s, t, k)
    decreases |s|
  {
    if s == [] || t == [] {
      assert t != [] ==> LexBelow(fold, s, t, 0);
    } else if fold(s[0]) != fold(t[0]) {
      assert fold(s[0]) < fold(t[0]) ==> LexBelow(fold, s, t, 0);
    } else {
      CmpLexLess(fold, s[1..], t[1..]);
      forall k: nat | LexBelow(fold, s[1..], t[1..], k) ensures LexBelow(fold, s, t, k + 1) {
        forall i | 0 <= i < k + 1 ensures fold(s[i]) == fold(t[i]) {
          assert i > 0 ==> s[i] == s[1..][i - 1] && t[i] == t[1..][i - 1];
        }
      }
      forall k: nat | LexBelow(fold, s, t, k) ensures k > 0 && LexBelow(fold, s[1..], t[1..], k - 1) {
      }
    }
  }

  // ----- numbers: minimal little-endian strings -----

  function LittleEndian(b: Bytes): nat {
    if b == [] then 0 else b[0] + 256 * LittleEndian(b[1..])
  }

  lemma {:induction false} LittleEndianBound(b: Bytes)
    ensures LittleEndian(b) < Pow256(|b|)
  {
    if b != [] {
      LittleEndianBound(b[1..]);
    }
  }

  lemma {:induction false} LittleEndianConcat(a: Bytes, b: Bytes)
    ensures LittleEndian(a + b) == LittleEndian(a) + Pow256(|a|) * LittleEndian(b)
  {
    if a == [] {
      assert a + b == b;
    } else {
      assert (a + b)[1..] == a[1..] + b;
      LittleEndianConcat(a[1..], b);
    }
  }

  /** Reads a number of at most eight bytes. */
  method BstrToU64(b: Bytes) returns (u: nat)
    requires 1 <= |b| <= U64_MAX_SIZE
    ensures u == LittleEndian(b) < TWO_64
  {
    u := 0;
    var i: nat, weight: nat := 0, 1;
    while i < |b|
      invariant i <= |b| && weight == Pow256(i) && u == LittleEndian(b[..i])
    {
      assert b[..i + 1] == b[..i] + [b[i]];
      LittleEndianConcat(b[..i], [b[i]]);
      assert LittleEndian([b[i]]) == b[i] + 256 * LittleEndian([]);
      u := u + weight * b[i];
      weight := 256 * weight;
      i := i + 1;
    }
    assert b[..|b|] == b;
    LittleEndianBound(b);
    Pow256Grows(|b|, 8);
    assert Pow256(8) == TWO_64 by {
      assert Pow256(4) == 0x1_0000_0000;
    }
  }

  /** The bytes of a number as they lie in memory. */
  function ByteAt(u: nat, i: nat): uint8 {
    u / Pow256(i) % 256
  }

  function ByteRun(u: nat, n: nat): (b: Bytes)
    ensures |b| == n
  {
    if n == 0 then [] else [u % 256] + ByteRun(u / 256, n - 1)
  }

  lemma {:induction false} ByteRunDecodes(u: nat, n: nat)
    requires u < Pow256(n)
    ensures LittleEndian(ByteRun(u, n)) == u
  {
    if n > 0 {
      ByteRunDecodes(u / 256, n - 1);
      assert ByteRun(u, n)[1..] == ByteRun(u / 256, n - 1);
    }
  }

  lemma {:induction false} ByteRunAt(u: nat, n: nat, i: nat)
    requires i < n
    ensures ByteRun(u, n)[i] == ByteAt(u, i)
  {
    if i == 0 {
      assert Pow256(0) == 1;
    } else {
      ByteRunAt(u / 256, n - 1, i - 1);
      Pow256Grows(0, i - 1);
      DivDiv(u, Pow256(i - 1));
    }
  }

  lemma DivDiv(u: nat, p: nat)
    requires p > 0
    ensures u / 256 / p == u / (256 * p)
  {
    var q := u / (256 * p);
    var r := u % (256 * p);
    assert u == 256 * (p * q) + r;
    assert u / 256 == p * q + r / 256;
    assert r / 256 < p;
    DivUnique(u / 256, p, q, r / 256);
  }

  lemma DivUnique(a: nat, p: nat, q: nat, r: nat)
    requires p > 0 && a == p * q + r && r < p
    ensures a / p == q
  {
    var q', r' := a / p, a % p;
    assert a == p * q' + r';
    if q' > q {
      MulMono(q + 1, q', p);
      assert false;
    } else if q' < q {
      MulMono(q' + 1, q, p);
      assert false;
    }
  }

  /** How many bytes the number needs; at least one. */
  method U64Size(u: nat) returns (n: nat)
    requires u < TWO_64
    ensures 1 <= n <= U64_MAX_SIZE && u < Pow256(n)
    ensures n > 1 ==> Pow256(n - 1) <= u
  {
    n := U64_MAX_SIZE;
    var pos := U64_MAX_SIZE - 1;
    assert Pow256(8) == TWO_64 by {
      assert Pow256(4) == 0x1_0000_0000;
    }
    while pos > 0
      invariant n == pos + 1 <= U64_MAX_SIZE && u < Pow256(n)
    {
      TopByte(u, pos);
      if ByteAt(u, pos) != 0 {
        break;
      }
      n := n - 1;
      pos := pos - 1;
    }
    if n == 0 {
      n := 1;
    }
  }

  lemma TopByte(u: nat, i: nat)
    requires u < Pow256(i + 1)
    ensures ByteAt(u, i) == 0 <==> u < Pow256(i)
  {
    var p := Pow256(i);
    var q, r := u / p, u % p;
    assert u == p * q + r && u < 256 * p;
    QuotientRange(u, p, q, r);
  }

  lemma QuotientRange(u: nat, p: nat, q: nat, r: nat)
    requires u == p * q + r && r < p && u < 256 * p
    ensures q < 256 && (q == 0 <==> u < p)
  {
    if q >= 256 {
      MulMono(256, q, p);
      assert false;
    }
    if q >= 1 {
      MulMono(1, q, p);
    }
  }

  /** Writes the number with as few bytes as it needs. */
  method U64ToBstr(u: nat) returns (b: Bytes)
    requires u < TWO_64
    ensures 1 <= |b| <= U64_MAX_SIZE && LittleEndian(b) == u
    ensures forall c: Bytes :: c != [] && LittleEndian(c) == u ==> |b| <= |c|
  {
    var n := U64Size(u);
    b := [];
    var pos := 0;
    while pos < n
      invariant pos <= n && b == ByteRun(u, n)[..pos]
    {
      ByteRunAt(u, n, pos);
      b := b + [ByteAt(u, pos)];
      pos := pos + 1;
    }
    assert b == ByteRun(u, n);
    ByteRunDecodes(u, n);
    forall c: Bytes | c != [] && LittleEndian(c) == u ensures |b| <= |c| {
      if |c| < n {
        LittleEndianBound(c);
        Pow256Grows(|c|, n - 1);
      }
    }
  }

  // ----- number keys and extents -----

  predicate NumOk(b: Bytes) {
    1 <= |b| <= U64_MAX_SIZE
  }

  method CollateU64(b1: Bytes, b2: Bytes) returns (r: int)
    requires NumOk(b1) && NumOk(b2)
    ensures r == CmpNat(LittleEndian(b1), LittleEndian(b2))
  {
    var u1 := BstrToU64(b1);
    var u2 := BstrToU64(b2);
    if u1 > u2 {
      return 1;
    }
    if u1 < u2 {
      return -1;
    }
    return 0;
  }

  /** The order of the ranges `[s1, e1)` and `[s2, e2)`; overlapping ranges compare equal. */
  function CmpRange(s1: nat, e1: nat, s2: nat, e2: nat): int {
    if s1 >= e2 then 1 else if e1 <= s2 then -1 else 0
  }

  /** A key is the start of an extent, its value the length; without a length, starts compare. */
  function CmpExtent(a: KV, b: KV): int {
    var a1, a2 := LittleEndian(a.key), LittleEndian(b.key);
    if a.value == [] || b.value == [] then CmpNat(a1, a2)
    else CmpRange(a1, a1 + LittleEndian(a.value), a2, a2 + LittleEndian(b.value))
  }

  /** The extent ends within 64 bits. */
  predicate Fits(a: KV) {
    LittleEndian(a.key) + LittleEndian(a.value) < TWO_64
  }

  /** Ends of extents are computed with 64-bit wrap-around; within 64 bits this is the order of extents. */
  method CollateExtent(a: KV, b: KV) returns (r: int)
    requires NumOk(a.key) && |a.value| <= U64_MAX_SIZE && NumOk(b.key) && |b.value| <= U64_MAX_SIZE
    ensures a.value != [] && b.value != [] ==>
              r == CmpRange(LittleEndian(a.key), (LittleEndian(a.key) + LittleEndian(a.value)) % TWO_64,
                            LittleEndian(b.key), (LittleEndian(b.key) + LittleEndian(b.value)) % TWO_64)
    ensures Fits(a) && Fits(b) ==> r == CmpExtent(a, b)
  {
    if b.value == [] || a.value == [] {
      r := CollateU64(a.key, b.key);
      return;
    }
    var addr1 := BstrToU64(a.key);
    var addr2 := BstrToU64(b.key);
    var len1 := BstrToU64(a.value);
    var len2 := BstrToU64(b.value);
    if addr1 >= (addr2 + len2) % TWO_64 {
      return 1;
    }
    if (addr1 + len1) % TWO_64 <= addr2 {
      return -1;
    }
    return 0;
  }

  predicate Covers(a: KV, blk: nat) {
    LittleEndian(a.key) <= blk < LittleEndian(a.key) + LittleEndian(a.value)
  }

  /** Extents compare equal exactly when they share a block, and otherwise by where they lie. */
  lemma ExtentOrder(a: KV, b: KV)
    requires a.value != [] && b.value != [] && LittleEndian(a.value) >= 1 && LittleEndian(b.value) >= 1
    ensures CmpExtent(a, b) == 0 <==> exists blk: nat :: Covers(a, blk) && Covers(b, blk)
    ensures CmpExtent(a, b) < 0 <==> forall x: nat, y: nat :: Covers(a, x) && Covers(b, y) ==> x < y
    ensures CmpExtent(a, b) > 0 <==> forall x: nat, y: nat :: Covers(a, x) && Covers(b, y) ==> x > y
  {
    var a1, a2 := LittleEndian(a.key), LittleEndian(b.key);
    assert Covers(a, a1) && Covers(b, a2);
    assert Covers(a, a1 + LittleEndian(a.value) - 1) && Covers(b, a2 + LittleEndian(b.value) - 1);
    if CmpExtent(a, b) == 0 {
      var blk := if a1 < a2 then a2 else a1;
      assert Covers(a, blk) && Covers(b, blk);
    }
  }

  // ----- an extent packed into one byte string -----

  const EXT_PAIR_HEADER_SIZE := 1
  const EXTENT_PAIR_MAX_SIZE := 17

  /** Length and start of the extent a packed pair stands for; no start if the pair is invalid. */
  function Unpacked(p: Bytes): (nat, Option<nat>)
    requires p != []
  {
    var n := p[0];
    if |p| <= n + EXT_PAIR_HEADER_SIZE then (0, None)
    else (LittleEndian(p[EXT_PAIR_HEADER_SIZE + n..]),
        Some(LittleEndian(p[EXT_PAIR_HEADER_SIZE..EXT_PAIR_HEADER_SIZE + n])))
  }

  datatype Option<T> = None | Some(value: T)

  /** What the packed pair was packed from; nothing for an extent of no blocks. */
  method ExtentToExtentPair(addr: nat, len: nat) returns (p: Bytes)
    requires addr < TWO_64 && len < TWO_64
    ensures len == 0 ==> p == []
    ensures len != 0 ==> 3 <= |p| <= EXTENT_PAIR_MAX_SIZE && Unpacked(p) == (len, Some(addr))
    ensures len != 0 ==>
              && 1 <= p[0] < |p| - 1 && LittleEndian(p[1..1 + p[0]]) == addr && LittleEndian(p[1 + p[0]..]) == len
    ensures len != 0 ==>
              forall q: Bytes :: q != [] && q[0] != 0 && Unpacked(q) == (len, Some(addr)) ==> |p| <= |q|
  {
    if len == 0 {
      return [];
    }
    var a := U64ToBstr(addr);
    var l := U64ToBstr(len);
    p := [|a|] + a + l;
    assert p[EXT_PAIR_HEADER_SIZE..EXT_PAIR_HEADER_SIZE + |a|] == a && p[EXT_PAIR_HEADER_SIZE + |a|..] == l;
    forall q: Bytes | q != [] && q[0] != 0 && Unpacked(q) == (len, Some(addr)) ensures |p| <= |q| {
      assert |q[EXT_PAIR_HEADER_SIZE..EXT_PAIR_HEADER_SIZE + q[0]]| >= |a|;
      assert |q[EXT_PAIR_HEADER_SIZE + q[0]..]| >= |l|;
    }
  }

  method ExtentPairToExtent(p: Bytes) returns (len: nat, addr: Option<nat>)
    requires p != []
    requires |p| > p[0] + EXT_PAIR_HEADER_SIZE ==> 1 <= p[0] <= U64_MAX_SIZE && |p| - p[0] - 1 <= U64_MAX_SIZE
    ensures (len, addr) == Unpacked(p)
  {
    var addrSize := p[0];
    if |p| <= addrSize + EXT_PAIR_HEADER_SIZE {
      return 0, None;
    }
    var a := BstrToU64(p[EXT_PAIR_HEADER_SIZE..EXT_PAIR_HEADER_SIZE + addrSize]);
    len := BstrToU64(p[EXT_PAIR_HEADER_SIZE + addrSize..]);
    addr := Some(a);
  }

  // ----- one comparison for all rules -----

  datatype Rule = Binary | Ansi | U64 | Extent

  /** Upper-casing, as the rank of the folded character. */
  type Fold = uint8 -> nat

  function Cmp(rule: Rule, fold: Fold, a: KV, b: KV): int {
    match rule
    case Binary => CmpNat(BigEndian(a.key), BigEndian(b.key))
    case Ansi => CmpLex(fold, a.key, b.key)
    case U64 => CmpNat(LittleEndian(a.key), LittleEndian(b.key))
    case Extent => CmpExtent(a, b)
  }

  /** A key that may be looked for under the rule. */
  predicate ProbeOk(rule: Rule, a: KV) {
    && a.key != []
    && (rule == U64 || rule == Extent ==> NumOk(a.key))
    && (rule == Extent ==> |a.value| <= U64_MAX_SIZE && Fits(a))
  }

  /** A key that may be stored under the rule: extents have blocks. */
  predicate KeyOk(rule: Rule, a: KV) {
    ProbeOk(rule, a) && (rule == Extent ==> a.value != [] && LittleEndian(a.value) >= 1)
  }

  method CollateKey(rule: Rule, fold: Fold, ie: KV, key: Bytes, value: Bytes) returns (r: int)
    requires ProbeOk(rule, ie) && ProbeOk(rule, KV(key, value))
    ensures r == Cmp(rule, fold, ie, KV(key, value))
  {
    match rule
    case Binary => r := CollateBinary(ie.key, key);
    case Ansi => r := CollateString(fold, ie.key, key);
    case U64 => r := CollateU64(ie.key, key);
    case Extent => r := CollateExtent(ie, KV(key, value));
  }

  /** What it means under each rule that one key comes before another: a smaller number, big-endian or
      little-endian; a string that is smaller at the first difference or ends there; an extent all of whose blocks
      lie below those of the other, or if one of them has no length, that starts before it. */
  ghost predicate Precedes(rule: Rule, fold: Fold, a: KV, b: KV) {
    match rule
    case Binary => BigEndian(a.key) < BigEndian(b.key)
    case Ansi => exists k: nat :: LexBelow(fold, a.key, b.key, k)
    case U64 => LittleEndian(a.key) < LittleEndian(b.key)
    case Extent =>
      if a.value == [] || b.value == [] then LittleEndian(a.key) < LittleEndian(b.key)
      else forall x: nat, y: nat :: Covers(a, x) && Covers(b, y) ==> x < y
  }

  /** Every rule compares as it should. */
  lemma CmpPrecedes(rule: Rule, fold: Fold, a: KV, b: KV)
    requires KeyOk(rule, a) && (KeyOk(rule, b) || (ProbeOk(rule, b) && (rule == Extent ==> b.value == [])))
    ensures Cmp(rule, fold, a, b) < 0 <==> Precedes(rule, fold, a, b)
    ensures Cmp(rule, fold, a, b) > 0 <==> Precedes(rule, fold, b, a)
  {
    match rule
    case Ansi =>
      CmpLexLess(fold, a.key, b.key);
      CmpLexLess(fold, b.key, a.key);
      CmpLexSym(fold, a.key, b.key);
    case Extent =>
      if b.value != [] {
        ExtentOrder(a, b);
        ExtentOrder(b, a);
      }
    case _ =>
  }

  lemma CmpSym(rule: Rule, fold: Fold, a: KV, b: KV)
    requires KeyOk(rule, a) && KeyOk(rule, b)
    ensures Cmp(rule, fold, a, b) == -Cmp(rule, fold, b, a) && Cmp(rule, fold, a, a) == 0
  {
    CmpLexSym(fold, a.key, b.key);
  }

  /** The order is transitive against any key looked for, from either side. */
  lemma CmpTrans(rule: Rule, fold: Fold, a: KV, b: KV, q: KV)
    requires KeyOk(rule, a) && KeyOk(rule, b) && ProbeOk(rule, q) && Cmp(rule, fold, a, b) < 0
    ensures Cmp(rule, fold, b, q) < 0 ==> Cmp(rule, fold, a, q) < 0
    ensures Cmp(rule, fold, a, q) > 0 ==> Cmp(rule, fold, b, q) > 0
  {
    if rule == Ansi {
      CmpLexSym(fold, a.key, q.key);
      CmpLexSym(fold, b.key, q.key);
      if CmpLex(fold, b.key, q.key) <= 0 {
        CmpLexTrans(fold, a.key, b.key, q.key);
      }
    }
  }

  /** What a key is up to equality, for the rules that compare keys alone. */
  function Canon(rule: Rule, fold: Fold, key: Bytes): seq<nat>
    requires rule != Extent
  {
    match rule
    case Binary => [BigEndian(key)]
    case Ansi => seq(|key|, i requires 0 <= i < |key| => fold(key[i]))
    case U64 => [LittleEndian(key)]
  }

  lemma CanonEqual(rule: Rule, fold: Fold, a: KV, b: KV)
    requires rule != Extent
    ensures Cmp(rule, fold, a, b) == 0 <==> Canon(rule, fold, a.key) == Canon(rule, fold, b.key)
  {
    if rule == Ansi {
      CmpLexEqual(fold, a.key, b.key);
      var x, y := Canon(rule, fold, a.key), Canon(rule, fold, b.key);
      assert |x| == |a.key| && |y| == |b.key|;
      if x == y {
        forall i | 0 <= i < |a.key| ensures fold(a.key[i]) == fold(b.key[i]) {
          assert x[i] == y[i];
        }
      }
    }
  }
}
