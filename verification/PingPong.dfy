/**
  The ping-pong superblock: numbered copies written in turn to the slots of one block, each stamped
  with its number in the head and in the last word, so that a torn write is found out and the newest
  whole copy recovered.

  A block is an array of 16-bit words; 32-bit head fields take two words, low word first.
*/
module PingPong {
  type Word = x: int | 0 <= x < 0x1_0000

  const TWO_16 := 0x1_0000
  const HEAD_WORDS := 8           // sizeof(block_head_t) is 16 bytes
  const HEAD_SIZE := 16
  const SEQ := 6                  // word of the sequence number
  const FIXUP := 7                // word that keeps the last word while it holds the stamp

  type Words = s: seq<Word> | |s| > HEAD_WORDS witness [0, 0, 0, 0, 0, 0, 0, 0, 0]

  function Long(low: Word, high: Word): nat {
    low + TWO_16 * high
  }

  function BlkId(s: Words): nat {
    Long(s[0], s[1])
  }

  function AllocSize(s: Words): nat {
    Long(s[2], s[3])
  }

  function RealSize(s: Words): nat {
    Long(s[4], s[5])
  }

  function Foot(s: Words): Word {
    s[|s| - 1]
  }

  function Next(w: Word): Word {
    (w + 1) % TWO_16
  }

  /** The block as it goes to the disk, and what is made of it on the way back. */
  function Stamped(b: Words): (s: Words)
    ensures |s| == |b|
  {
    b[FIXUP := Foot(b)][|b| - 1 := b[SEQ]]
  }

  function Restored(s: Words): (b: Words)
    ensures |b| == |s|
  {
    s[|s| - 1 := s[FIXUP]][SEQ := Next(s[SEQ])]
  }

  /** The stamps in head and foot agree. */
  predicate Whole(s: Words) {
    Foot(s) == s[SEQ]
  }

  /** Stamping and restoring undo each other, but for the number, which goes up, and the word that
      keeps the foot. */
  lemma StampedRestored(b: Words)
    ensures Whole(Stamped(b))
    ensures Restored(Stamped(b)) == b[FIXUP := Foot(b)][SEQ := Next(b[SEQ])]
  {
  }

  /** A legal block of `2 * |b|` bytes: what its head must say. */
  predicate Legal(b: Words, id: nat) {
    BlkId(b) == id && AllocSize(b) == 2 * |b| && HEAD_SIZE <= RealSize(b) <= 2 * |b|
  }

  /** What was written of a legal block is accepted and restored when it is read. */
  lemma LegalReadBack(b: Words, id: nat)
    requires Legal(b, id)
    ensures var s := Stamped(b); Verifies(s, id, 2 * |b|) && Whole(s)
    ensures Restored(Stamped(b)) == b[FIXUP := Foot(b)][SEQ := Next(b[SEQ])]
  {
  }

  method AssembleBlock(blk: array<Word>)
    requires blk.Length > HEAD_WORDS && AllocSize(blk[..]) == 2 * blk.Length
    modifies blk
    ensures blk[..] == Stamped(old(blk[..]))
  {
    var foot := Long(blk[2], blk[3]) / 2 - 1;
    blk[FIXUP] := blk[foot];
    blk[foot] := blk[SEQ];
    assert blk[..] == Stamped(old(blk[..]));
  }

  method FixupBlock(blk: array<Word>) returns (ok: bool)
    requires blk.Length > HEAD_WORDS && AllocSize(blk[..]) == 2 * blk.Length
    modifies blk
    ensures ok <==> Whole(old(blk[..]))
    ensures blk[..] == if ok then Restored(old(blk[..])) else old(blk[..])
  {
    var foot := Long(blk[2], blk[3]) / 2 - 1;
    if blk[foot] != blk[SEQ] {
      return false;
    }
    blk[foot] := blk[FIXUP];
    blk[SEQ] := (blk[SEQ] + 1) % TWO_16;
    assert blk[..] == Restored(old(blk[..]));
    ok := true;
  }

  predicate Verifies(s: Words, id: nat, allocSize: nat) {
    BlkId(s) == id && AllocSize(s) == allocSize && HEAD_SIZE <= RealSize(s) <= allocSize
  }

  method VerifyBlock(blk: array<Word>, id: nat, allocSize: nat) returns (ok: bool)
    requires blk.Length > HEAD_WORDS
    ensures ok <==> Verifies(blk[..], id, allocSize)
    ensures ok <==> BlkId(blk[..]) == id && AllocSize(blk[..]) == allocSize
                    && HEAD_SIZE <= RealSize(blk[..]) <= AllocSize(blk[..])
  {
    if Long(blk[0], blk[1]) != id {
      return false;
    }
    if Long(blk[2], blk[3]) != allocSize {
      return false;
    }
    ok := !(Long(blk[4], blk[5]) > Long(blk[2], blk[3]) || Long(blk[4], blk[5]) < HEAD_SIZE);
  }

  // ----- the slots -----

  /** Slots on the disk: `cnt` copies of `n` words.  The count divides 65536, so that numbers wrap
      around together with the slots. */
  ghost predicate Layout(cnt: nat, n: nat) {
    2 <= cnt < TWO_16 && TWO_16 % cnt == 0 && n > HEAD_WORDS
  }

  /** The number of the last write up to write `t` that went to slot `j`; negative if there was none. */
  function LastAt(t: nat, j: nat, cnt: nat): int
    requires cnt > 0
  {
    var p := t % cnt;
    if j <= p then t - p + j else t - p + j - cnt
  }

  function Stamp(t: nat): Word {
    t % TWO_16
  }

  /** The disk after writes 0 to `t`, the last of them of block `b`, and perhaps some attempts at write
      `t + 1` that did not get to the last word. */
  ghost predicate Holds(slots: seq<Words>, t: nat, b: Words, id: nat, cnt: nat, n: nat) {
    && Layout(cnt, n) && id != 0 && |slots| == cnt && |b| == n
    && b[SEQ] == Stamp(t) && Verifies(b, id, 2 * n) && slots[t % cnt] == Stamped(b)
    && forall j :: 0 <= j < cnt ==> SlotOk(slots[j], t, j, id, cnt, n)
  }

  /** The last word of a slot is that of its last whole write; so is the number in the head, except where
      write `t + 1` was attempted. */
  ghost predicate SlotOk(s: Words, t: nat, j: nat, id: nat, cnt: nat, n: nat)
    requires cnt > 0
  {
    var last := LastAt(t, j, cnt);
    var was := if last >= 0 then Stamp(last) else 0;
    && |s| == n && Foot(s) == was
    && (s[SEQ] == was || (j == (t + 1) % cnt && s[SEQ] == Stamp(t + 1)))
    && (last >= 0 ==> BlkId(s) == id)
    && (last < 0 && j != (t + 1) % cnt ==> BlkId(s) == 0)
  }

  // ----- arithmetic -----

  lemma ModSteps(t: nat, cnt: nat)
    requires cnt >= 2
    ensures (t + 1) % cnt == if t % cnt == cnt - 1 then 0 else t % cnt + 1
  {
    var q, r := t / cnt, t % cnt;
    assert t == q * cnt + r;
    if r == cnt - 1 {
      assert t + 1 == (q + 1) * cnt;
      ModUnique(t + 1, cnt, q + 1, 0);
    } else {
      ModUnique(t + 1, cnt, q, r + 1);
    }
  }

  lemma ModUnique(a: nat, m: nat, q: nat, r: nat)
    requires m > 0 && a == q * m + r && r < m
    ensures a % m == r && a / m == q
  {
    var q', r' := a / m, a % m;
    assert a == q' * m + r';
    if q' < q {
      MulMono(q' + 1, q, m);
      assert false;
    } else if q' > q {
      MulMono(q + 1, q', m);
      assert false;
    }
  }

  lemma MulMono(x: nat, y: nat, m: nat)
    requires x <= y
    ensures x * m <= y * m
  {
  }

  lemma Regroup(q: nat, d: nat, cnt: nat, q2: nat, r2: nat)
    ensures q * (d * cnt) + (q2 * cnt + r2) == (q * d + q2) * cnt + r2
  {
    assert (q * d + q2) * cnt == q * d * cnt + q2 * cnt;
    assert q * (d * cnt) == q * d * cnt;
  }

  lemma Below(q2: nat, d: nat, cnt: nat, r2: nat)
    requires q2 * cnt + r2 < d * cnt
    ensures q2 < d && q2 * cnt + cnt <= d * cnt
  {
    if q2 >= d {
      MulMono(d, q2, cnt);
      assert false;
    }
    MulMono(q2 + 1, d, cnt);
    assert (q2 + 1) * cnt == q2 * cnt + cnt;
  }

  /** The slot computed from the stamp is the slot of the write. */
  lemma StampSlot(t: nat, cnt: nat)
    requires cnt >= 2 && TWO_16 % cnt == 0
    ensures Stamp(t) % cnt == t % cnt
    ensures Stamp(t) - t % cnt >= 0 && (Stamp(t) - t % cnt) % cnt == 0 && Stamp(t) - t % cnt + cnt <= TWO_16
  {
    var d := TWO_16 / cnt;
    Quotient(TWO_16, cnt);
    Quotient(t, TWO_16);
    var q, r := t / TWO_16, t % TWO_16;
    Quotient(r, cnt);
    var q2, r2 := r / cnt, r % cnt;
    Regroup(q, d, cnt, q2, r2);
    ModUnique(t, cnt, q * d + q2, r2);
    ModUnique(r - r2, cnt, q2, 0);
    Below(q2, d, cnt, r2);
  }

  lemma Quotient(a: nat, m: nat)
    requires m > 0
    ensures a == a / m * m + a % m && a % m < m && a / m >= 0
  {
  }

  /** Within one round of the slots the stamps count up without a wrap, and differ from round to round. */
  lemma Rounds(t: nat, j: nat, cnt: nat)
    requires cnt >= 2 && cnt < TWO_16 && TWO_16 % cnt == 0 && j < cnt
    ensures var p := t % cnt;
            && (j <= p ==> Stamp(LastAt(t, j, cnt)) == Stamp(t) - p + j)
            && (j > p && LastAt(t, j, cnt) >= 0 ==> Stamp(LastAt(t, j, cnt)) != Stamp(t) - p + j)
            && (p < cnt - 1 ==> Stamp(t + 1) == Stamp(t) + 1)
            && (LastAt(t, (t + 1) % cnt, cnt) >= 0 ==> Stamp(LastAt(t, (t + 1) % cnt, cnt)) != Stamp(t + 1))
            && (LastAt(t, (t + 1) % cnt, cnt) < 0 ==> p < cnt - 1 && Stamp(t) == t)
  {
    var p := t % cnt;
    StampSlot(t, cnt);
    ModSteps(t, cnt);
    var base := Stamp(t) - p;
    var q, r := t / TWO_16, t % TWO_16;
    assert t == q * TWO_16 + r;
    if j <= p {
      ModUnique(t - p + j, TWO_16, q, base + j);
    }
    if j > p && LastAt(t, j, cnt) >= 0 {
      DiffStamp(t - p + j - cnt, base + j, q, cnt);
    }
    if p < cnt - 1 {
      ModUnique(t + 1, TWO_16, q, r + 1);
    }
    if LastAt(t, (t + 1) % cnt, cnt) >= 0 {
      NextStamp(t + 1 - cnt, cnt);
    }
  }

  /** Two numbers `cnt` apart have different stamps. */
  lemma NextStamp(a: nat, cnt: nat)
    requires 0 < cnt < TWO_16
    ensures Stamp(a) != Stamp(a + cnt)
  {
    var q, r := a / TWO_16, a % TWO_16;
    if r + cnt < TWO_16 {
      ModUnique(a + cnt, TWO_16, q, r + cnt);
    } else {
      ModUnique(a + cnt, TWO_16, q + 1, r + cnt - TWO_16);
    }
  }

  lemma DiffStamp(a: nat, x: nat, q: nat, cnt: nat)
    requires 0 < cnt < TWO_16 && x < TWO_16 && a + cnt == q * TWO_16 + x
    ensures Stamp(a) != x
  {
    NextStamp(a, cnt);
    ModUnique(a + cnt, TWO_16, q, x);
  }

  // ----- copying a number of bytes -----

  /** The first `bytes` bytes of `src` over `dst`. */
  function Overlay(dst: Words, src: Words, bytes: nat): (r: Words)
    requires |dst| == |src|
    ensures |r| == |src|
    ensures forall i :: 0 <= i < |src| ==>
              r[i] == if 2 * i + 2 <= bytes then src[i]
                      else if 2 * i + 1 == bytes then src[i] % 256 + dst[i] / 256 * 256 else dst[i]
  {
    seq(|src|, i requires 0 <= i < |src| =>
      if 2 * i + 2 <= bytes then src[i]
      else if 2 * i + 1 == bytes then src[i] % 256 + dst[i] / 256 * 256 else dst[i])
  }

  function Zeros(n: nat): (z: Words)
    requires n > HEAD_WORDS
    ensures |z| == n && forall i :: 0 <= i < n ==> z[i] == 0
  {
    seq(n, i => 0)
  }

  /** What the first write of a block puts into its slot.  Only `RealSize` bytes are copied, so the stamp
      in the last word arrives only if that covers it or happens to leave the right value there. */
  function FirstCopy(b: Words): (s: Words)
    ensures |s| == |b|
  {
    Overlay(Zeros(|b|), Stamped(b), RealSize(b))
  }

  lemma FirstCopyWhole(b: Words)
    requires AllocSize(b) == 2 * |b| && HEAD_SIZE <= RealSize(b) <= AllocSize(b)
    ensures Whole(FirstCopy(b)) <==>
              || RealSize(b) == AllocSize(b)
              || (RealSize(b) == AllocSize(b) - 1 && b[SEQ] < 256)
              || (RealSize(b) < AllocSize(b) - 1 && b[SEQ] == 0)
  {
    assert Stamped(b)[SEQ] == b[SEQ];
  }

  /** A first copy numbered 0 is the stamped form of the block's first `RealSize` bytes, with the last
      word as it was. */
  lemma FirstCopyZero(b: Words)
    requires AllocSize(b) == 2 * |b| && HEAD_SIZE <= RealSize(b) <= AllocSize(b) && b[SEQ] == 0
    ensures FirstCopy(b) == Stamped(FirstImage(b)) && FirstImage(b)[SEQ] == 0
    ensures BlkId(FirstImage(b)) == BlkId(b) && AllocSize(FirstImage(b)) == AllocSize(b)
            && RealSize(FirstImage(b)) == RealSize(b)
    ensures RealSize(b) == AllocSize(b) ==> FirstImage(b) == b
  {
  }

  function FirstImage(b: Words): (r: Words)
    ensures |r| == |b|
  {
    Overlay(Zeros(|b|), b, RealSize(b))[|b| - 1 := Foot(b)]
  }

  /** A write that got as far as word `reach`. */
  function Reached(was: Words, now: Words, reach: nat): (r: Words)
    requires |was| == |now|
    ensures |r| == |now|
  {
    if reach >= |now| then now else now[..reach] + was[reach..]
  }

  // ----- recovery -----

  /** Where the first loop of the recovery may stop: at the newest whole copy, or at an attempt at the
      one after it. */
  ghost predicate Candidate(slots: seq<Words>, i: nat, t: nat, cnt: nat)
    requires cnt > 0 && |slots| == cnt
  {
    i == t % cnt || (i == (t + 1) % cnt && slots[i][SEQ] == Stamp(t + 1))
  }

  /** The scan adds one without wrapping around. */
  function Succ(w: Word): int {
    w as int + 1
  }

  /** The first `i` slots are written and numbered in sequence, and slot `i` does not go on with it. */
  ghost predicate Sequence(slots: seq<Words>, i: nat)
    requires i <= |slots|
  {
    && (forall k :: 0 <= k < i ==> BlkId(slots[k]) != 0)
    && (forall k :: 0 < k < i ==> Succ(slots[k - 1][SEQ]) == slots[k][SEQ])
  }

  ghost predicate Breaks(slots: seq<Words>, i: nat)
    requires i <= |slots|
  {
    i < |slots| ==> BlkId(slots[i]) == 0 || (i != 0 && Succ(slots[i - 1][SEQ]) != slots[i][SEQ])
  }

  lemma SequenceEnds(slots: seq<Words>, t: nat, b: Words, id: nat, cnt: nat, n: nat, i: nat)
    requires Holds(slots, t, b, id, cnt, n) && i <= cnt && Sequence(slots, i) && Breaks(slots, i)
    ensures i >= 1 && Candidate(slots, i - 1, t, cnt)
  {
    var p := t % cnt;
    ModSteps(t, cnt);
    Rounds(t, 0, cnt);
    assert SlotOk(slots[0], t, 0, id, cnt, n);
    if p == cnt - 1 && slots[0][SEQ] == Stamp(t + 1) {
      Rounds(t, 1, cnt);
      assert SlotOk(slots[1], t, 1, id, cnt, n);
    } else {
      if i <= p {
        Step(slots, t, b, id, cnt, n, i);
        if i > 0 {
          Step(slots, t, b, id, cnt, n, i - 1);
        }
        assert false;
      }
      if i >= p + 2 {
        Step(slots, t, b, id, cnt, n, p);
        Beyond(slots, t, b, id, cnt, n, p + 1);
        if i > p + 2 {
          Beyond(slots, t, b, id, cnt, n, p + 2);
          assert false;
        }
      }
    }
  }

  /** The slots up to the newest copy are numbered in sequence. */
  lemma Step(slots: seq<Words>, t: nat, b: Words, id: nat, cnt: nat, n: nat, j: nat)
    requires Holds(slots, t, b, id, cnt, n) && j <= t % cnt && !(t % cnt == cnt - 1 && slots[0][SEQ] == Stamp(t + 1))
    ensures BlkId(slots[j]) != 0 && slots[j][SEQ] == Stamp(t) - t % cnt + j
  {
    ModSteps(t, cnt);
    Rounds(t, j, cnt);
    assert SlotOk(slots[j], t, j, id, cnt, n);
  }

  /** Behind it a slot does not go on with the sequence, unless it holds an attempt at the next write. */
  lemma Beyond(slots: seq<Words>, t: nat, b: Words, id: nat, cnt: nat, n: nat, j: nat)
    requires Holds(slots, t, b, id, cnt, n) && t % cnt < j < cnt
    ensures BlkId(slots[j]) != 0 && slots[j][SEQ] == Stamp(t) - t % cnt + j ==>
              j == t % cnt + 1 && slots[j][SEQ] == Stamp(t + 1)
  {
    ModSteps(t, cnt);
    Rounds(t, j, cnt);
    assert SlotOk(slots[j], t, j, id, cnt, n);
    StampSlot(t, cnt);
  }

  /** An attempt at the next write is not whole. */
  lemma AttemptTorn(slots: seq<Words>, t: nat, b: Words, id: nat, cnt: nat, n: nat)
    requires Holds(slots, t, b, id, cnt, n) && slots[(t + 1) % cnt][SEQ] == Stamp(t + 1)
    ensures !Whole(slots[(t + 1) % cnt])
    ensures (if (t + 1) % cnt == 0 then cnt else (t + 1) % cnt) - 1 == t % cnt
  {
    var q := (t + 1) % cnt;
    ModSteps(t, cnt);
    Rounds(t, q, cnt);
    assert SlotOk(slots[q], t, q, id, cnt, n);
  }

  /** Finds the newest whole copy and restores it. */
  method GetLastCorrectBlock(buf: seq<Words>, id: nat, allocSize: nat, cnt: nat, ghost t: nat, ghost b: Words)
    returns (found: bool, blk: Words)
    requires Holds(buf, t, b, id, cnt, |b|) && allocSize == 2 * |b|
    ensures found && blk == Restored(Stamped(b))
  {
    hide Holds, Sequence, Breaks, Candidate, Whole, Verifies;
    HoldsFacts(buf, t, b, id, cnt);
    found, blk := false, buf[0];
    var i, prevI, prevSeqNo := 0, 0, 0;
    SequenceStart(buf);
    while i < cnt
      invariant i <= cnt && Sequence(buf, i) && (i > 0 ==> prevI == i - 1 && prevSeqNo == buf[i - 1][SEQ])
    {
      if Long(buf[i][0], buf[i][1]) == 0 || (i != 0 && Succ(prevSeqNo) != buf[i][SEQ]) {
        break;
      }
      SequenceStep(buf, i);
      prevSeqNo := buf[i][SEQ];
      prevI := i;
      i := i + 1;
    }
    assert Breaks(buf, i) by {
      BreaksHere(buf, i);
    }
    SequenceEnds(buf, t, b, id, cnt, |b|, i);
    assert BlkId(buf[prevI]) != 0 by {
      SequenceLast(buf, i);
    }
    i := 0;
    CandidateNewest(buf, t, b, id, cnt);
    while i < cnt
      invariant prevI < cnt && BlkId(buf[prevI]) != 0 && Candidate(buf, prevI, t, cnt)
      invariant i >= 1 ==> prevI == t % cnt
      invariant i <= 1
    {
      CandidateIs(buf, t, b, id, cnt, prevI);
      if Long(buf[prevI][0], buf[prevI][1]) == 0 {
        break;
      }
      var copy := new Word[|buf[prevI]|](k requires 0 <= k < |buf[prevI]| => buf[prevI][k]);
      assert copy[..] == buf[prevI];
      var ok := VerifyBlock(copy, id, allocSize);
      if ok {
        VerifiesSize(copy[..], id, allocSize);
        ok := FixupBlock(copy);
        if ok {
          return true, copy[..];
        }
      }
      if prevI == 0 {
        prevI := cnt;
      }
      prevI := prevI - 1;
      i := i + 1;
    }
    assert false;
  }

  lemma HoldsFacts(slots: seq<Words>, t: nat, b: Words, id: nat, cnt: nat)
    requires Holds(slots, t, b, id, cnt, |b|)
    ensures |slots| == cnt >= 2 && forall j :: 0 <= j < cnt ==> |slots[j]| == |b|
  {
    forall j | 0 <= j < cnt ensures |slots[j]| == |b| {
      assert SlotOk(slots[j], t, j, id, cnt, |b|);
    }
  }

  lemma SequenceStart(slots: seq<Words>)
    ensures Sequence(slots, 0)
  {
  }

  lemma SequenceStep(slots: seq<Words>, i: nat)
    requires i < |slots| && Sequence(slots, i) && BlkId(slots[i]) != 0
             && (i > 0 ==> Succ(slots[i - 1][SEQ]) == slots[i][SEQ])
    ensures Sequence(slots, i + 1)
  {
  }

  lemma SequenceLast(slots: seq<Words>, i: nat)
    requires 0 < i <= |slots| && Sequence(slots, i)
    ensures BlkId(slots[i - 1]) != 0
  {
  }

  lemma BreaksHere(slots: seq<Words>, i: nat)
    requires i <= |slots|
             && (i < |slots| ==> BlkId(slots[i]) == 0 || (i != 0 && Succ(slots[i - 1][SEQ]) != slots[i][SEQ]))
    ensures Breaks(slots, i)
  {
  }

  lemma VerifiesSize(s: Words, id: nat, allocSize: nat)
    requires Verifies(s, id, allocSize)
    ensures AllocSize(s) == allocSize
  {
  }

  lemma CandidateNewest(slots: seq<Words>, t: nat, b: Words, id: nat, cnt: nat)
    requires Holds(slots, t, b, id, cnt, |b|)
    ensures Candidate(slots, t % cnt, t, cnt) && BlkId(slots[t % cnt]) != 0
  {
    assert SlotOk(slots[t % cnt], t, t % cnt, id, cnt, |b|);
  }

  /** What the second loop finds at a candidate. */
  lemma CandidateIs(slots: seq<Words>, t: nat, b: Words, id: nat, cnt: nat, i: nat)
    requires Holds(slots, t, b, id, cnt, |b|) && i < cnt && Candidate(slots, i, t, cnt)
    ensures i == t % cnt ==> slots[i] == Stamped(b) && Verifies(slots[i], id, 2 * |b|) && Whole(slots[i])
    ensures i != t % cnt ==> !Whole(slots[i]) && (if i == 0 then cnt else i) - 1 == t % cnt
  {
    if i != t % cnt {
      AttemptTorn(slots, t, b, id, cnt, |b|);
    }
  }

  // ----- the volume -----

  /** The block of the volume that holds the copies, and what has been written there. */
  class Volume {
    const id: nat
    const cnt: nat
    const n: nat
    var slots: seq<Words>

    /** The number of the newest whole copy, and the block it is a copy of. */
    ghost var t: nat
    ghost var image: Words

    ghost predicate Valid()
      reads this
    {
      Holds(slots, t, image, id, cnt, n)
    }

    /** The block in memory is the one to be written next. */
    ghost predicate Current(blk: Words)
      reads this
    {
      |blk| == n && blk[SEQ] == Stamp(t + 1) && Verifies(blk, id, 2 * n)
    }

    /** First write of a block numbered 0; the other slots are cleared. */
    constructor (blk: array<Word>, id: nat, cnt: nat)
      requires blk.Length > HEAD_WORDS && Layout(cnt, blk.Length) && id != 0
      requires Verifies(blk[..], id, 2 * blk.Length) && blk[SEQ] == 0
      modifies blk
      ensures this.id == id && this.cnt == cnt && this.n == blk.Length
      ensures Valid() && t == 0 && image == FirstImage(old(blk[..]))
      ensures blk[..] == Restored(Stamped(old(blk[..]))) && Current(blk[..])
    {
      ghost var b := blk[..];
      AssembleBlock(blk);
      var at := blk[SEQ] % cnt;
      var zero := Zeros(blk.Length);
      var buf := seq(cnt, i requires 0 <= i < cnt => zero);
      this.id, this.cnt, this.n := id, cnt, blk.Length;
      slots := buf[at := Overlay(zero, blk[..], Long(blk[4], blk[5]))];
      t := 0;
      image := FirstImage(b);
      new;
      FirstHolds(slots, b, id, cnt);
      var ok := FixupBlock(blk);
    }

    /** Writes the block to the slot of its number.  The write gets as far as word `reach`; unless it gets
        to the end, the block in memory is lost with the crash. */
    method UpdateBlockPingpong(blk: array<Word>, reach: nat)
      requires Valid() && blk.Length > HEAD_WORDS && Current(blk[..])
      modifies this, blk
      ensures Valid()
      ensures reach >= n ==>
                t == old(t) + 1 && image == old(blk[..]) && blk[..] == Restored(Stamped(old(blk[..])))
                    && Current(blk[..])
      ensures reach < n ==> t == old(t) && image == old(image)
    {
      hide Holds, Verifies, Stamped, Restored;
      ghost var b := blk[..];
      HoldsLayout(slots, t, image, id, cnt, n);
      HoldsFacts(slots, t, image, id, cnt);
      VerifiesSize(b, id, 2 * n);
      StampSlot(t + 1, cnt);
      AssembleBlock(blk);
      StampedHead(b);
      var at := blk[SEQ] % cnt;
      ghost var was := slots;
      slots := slots[at := Reached(slots[at], blk[..], reach)];
      StampedRestored(b);
      var ok := FixupBlock(blk);
      if reach >= n {
        UpdateWhole(was, slots, t, image, id, cnt, n, b);
        NextCurrent(b, t + 1, id, n);
        t, image := t + 1, b;
      } else {
        UpdateTorn(was, slots, t, image, id, cnt, n, b, reach);
      }
    }

    /** Recovers the newest whole copy into `blk`: its first `RealSize` bytes. */
    method ReadBlockPingpong(blk: array<Word>) returns (ok: bool)
      requires Valid() && blk.Length == n > HEAD_WORDS
      modifies blk
      ensures ok && blk[..] == Overlay(old(blk[..]), Restored(Stamped(image)), RealSize(image))
      ensures Current(blk[..])
    {
      hide Holds, Stamped, Restored, Verifies;
      HoldsLayout(slots, t, image, id, cnt, n);
      var found, copy := GetLastCorrectBlock(slots, id, 2 * n, cnt, t, image);
      StampedHead(image);
      var into := Overlay(blk[..], copy, Long(copy[4], copy[5]));
      forall i | 0 <= i < blk.Length {
        blk[i] := into[i];
      }
      assert blk[..] == into;
      OverlayHead(old(blk[..]), copy, RealSize(copy));
      HeadVerifies(image, id, 2 * n);
      SameHead(copy, into, id, 2 * n);
      NextCurrent(image, t, id, n);
      ok := found;
    }
  }

  lemma HoldsLayout(slots: seq<Words>, t: nat, b: Words, id: nat, cnt: nat, n: nat)
    requires Holds(slots, t, b, id, cnt, n)
    ensures Layout(cnt, n) && |b| == n && b[SEQ] == Stamp(t) && Verifies(b, id, 2 * n) && id != 0
  {
  }

  lemma StampedHead(b: Words)
    ensures forall i :: 0 <= i < FIXUP && i < |b| - 1 ==> Stamped(b)[i] == b[i]
    ensures Stamped(b)[SEQ] == b[SEQ] && RealSize(Restored(Stamped(b))) == RealSize(b)
    ensures AllocSize(Stamped(b)) == AllocSize(b)
  {
  }

  /** Whatever part of a block is copied, its head is. */
  lemma OverlayHead(dst: Words, src: Words, bytes: nat)
    requires |dst| == |src| && bytes >= HEAD_SIZE
    ensures forall i :: 0 <= i < HEAD_WORDS ==> Overlay(dst, src, bytes)[i] == src[i]
  {
  }

  lemma SameHead(a: Words, b: Words, id: nat, allocSize: nat)
    requires |a| == |b| && forall i :: 0 <= i < HEAD_WORDS ==> b[i] == a[i]
    ensures b[SEQ] == a[SEQ] && (Verifies(a, id, allocSize) <==> Verifies(b, id, allocSize))
  {
  }

  lemma HeadVerifies(b: Words, id: nat, allocSize: nat)
    requires Verifies(b, id, allocSize)
    ensures RealSize(b) >= HEAD_SIZE && RealSize(Restored(Stamped(b))) == RealSize(b)
  {
  }

  lemma NextCurrent(b: Words, t: nat, id: nat, n: nat)
    requires |b| == n && b[SEQ] == Stamp(t) && Verifies(b, id, 2 * n)
    ensures var r := Restored(Stamped(b)); |r| == n && r[SEQ] == Stamp(t + 1) && Verifies(r, id, 2 * n)
  {
    var q, r := t / TWO_16, t % TWO_16;
    Quotient(t, TWO_16);
    if r == TWO_16 - 1 {
      ModUnique(t + 1, TWO_16, q + 1, 0);
    } else {
      ModUnique(t + 1, TWO_16, q, r + 1);
    }
  }

  lemma FirstHolds(slots: seq<Words>, b: Words, id: nat, cnt: nat)
    requires Layout(cnt, |b|) && id != 0 && Verifies(b, id, 2 * |b|) && b[SEQ] == 0 && |slots| == cnt
    requires slots[0] == FirstCopy(b) && forall j :: 0 < j < cnt ==> slots[j] == Zeros(|b|)
    ensures Holds(slots, 0, FirstImage(b), id, cnt, |b|)
  {
    FirstCopyZero(b);
    StampedHead(FirstImage(b));
    forall j | 0 <= j < cnt ensures SlotOk(slots[j], 0, j, id, cnt, |b|) {
    }
  }

  lemma UpdateWhole(slots: seq<Words>, slots': seq<Words>, t: nat, image: Words, id: nat, cnt: nat, n: nat, b: Words)
    requires Holds(slots, t, image, id, cnt, n) && |b| == n && b[SEQ] == Stamp(t + 1) && Verifies(b, id, 2 * n)
    requires |slots| == cnt && cnt > 0 && slots' == slots[(t + 1) % cnt := Stamped(b)]
    ensures Holds(slots', t + 1, b, id, cnt, n)
  {
    StampedHead(b);
    ModSteps(t, cnt);
    ModSteps(t + 1, cnt);
    forall j | 0 <= j < cnt ensures SlotOk(slots'[j], t + 1, j, id, cnt, n) {
      assert SlotOk(slots[j], t, j, id, cnt, n);
      if j != (t + 1) % cnt {
        LastSame(t, j, cnt);
      }
    }
  }

  /** A write changes the last write of its own slot only. */
  lemma LastSame(t: nat, j: nat, cnt: nat)
    requires cnt >= 2 && j < cnt && j != (t + 1) % cnt
    ensures LastAt(t + 1, j, cnt) == LastAt(t, j, cnt)
  {
    ModSteps(t, cnt);
  }

  lemma UpdateTorn(slots: seq<Words>, slots': seq<Words>, t: nat, image: Words, id: nat, cnt: nat, n: nat, b: Words,
                   reach: nat)
    requires Holds(slots, t, image, id, cnt, n) && |b| == n && b[SEQ] == Stamp(t + 1) && Verifies(b, id, 2 * n)
             && reach < n
    requires |slots| == cnt && cnt > 0 && |slots[(t + 1) % cnt]| == n
    requires slots' == slots[(t + 1) % cnt := Reached(slots[(t + 1) % cnt], Stamped(b), reach)]
    ensures Holds(slots', t, image, id, cnt, n)
  {
    StampedHead(b);
    ModSteps(t, cnt);
    var q := (t + 1) % cnt;
    forall j | 0 <= j < cnt ensures SlotOk(slots'[j], t, j, id, cnt, n) {
      assert SlotOk(slots[j], t, j, id, cnt, n);
      if j == q {
        TornHead(slots[q], Stamped(b), reach, id);
      }
    }
  }

  /** A torn write keeps the last word, and mixes two heads. */
  lemma TornHead(was: Words, now: Words, reach: nat, id: nat)
    requires |was| == |now| && reach < |now|
    ensures var r := Reached(was, now, reach);
            && Foot(r) == Foot(was) && (r[SEQ] == was[SEQ] || r[SEQ] == now[SEQ])
            && (BlkId(was) == id && BlkId(now) == id ==> BlkId(r) == id)
  {
    var r := Reached(was, now, reach);
    if BlkId(was) == id && BlkId(now) == id {
      assert was[0] == now[0] && was[1] == now[1];
    }
  }
}
