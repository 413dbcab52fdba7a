/** The bitmap (bitmap.c): words of 32 bits behind, an array of booleans in front. */
module Bitmap {
  import opened Options

  // ---- one bit of a word ----

  /** bit_mask, of a bit's index within its word */
  function Mask(j: nat): bv32
    requires j < 32
  {
    (1 as bv32) << j
  }

  /** The or, and and xor instructions. */
  function Marked(w: bv32, m: bv32): bv32 { w | m }

  function Cleared(w: bv32, m: bv32): bv32 { w & !m }

  function Flipped(w: bv32, m: bv32): bv32 { w ^ m }

  function Masked(w: bv32, m: bv32): bv32 { w & m }

  predicate Bit(w: bv32, j: nat)
    requires j < 32
  {
    Masked(w, Mask(j)) != 0
  }

  lemma MasksApart(j: nat, k: nat)
    requires j < 32 && k < 32 && j != k
    ensures Masked(Mask(j), Mask(k)) == 0
  {
  }

  lemma MaskNonZero(j: nat)
    requires j < 32
    ensures Mask(j) != 0
  {
  }

  lemma OneBit(w: bv32, j: nat)
    requires j < 32
    ensures Masked(w, Mask(j)) == 0 || Masked(w, Mask(j)) == Mask(j)
  {
  }

  /** Words and masks without a bit in common. */
  lemma MarkedApart(w: bv32, m: bv32, n: bv32)
    requires Masked(m, n) == 0
    ensures Masked(Marked(w, m), n) == Masked(w, n)
  {
  }

  lemma FlippedApart(w: bv32, m: bv32, n: bv32)
    requires Masked(m, n) == 0
    ensures Masked(Flipped(w, m), n) == Masked(w, n)
  {
  }

  lemma ClearedApart(w: bv32, m: bv32, n: bv32)
    requires Masked(m, n) == 0
    ensures Masked(Cleared(w, m), n) == Masked(w, n)
  {
  }

  /** And a word and its own mask. */
  lemma MarkedSame(w: bv32, n: bv32)
    ensures Masked(Marked(w, n), n) == n
  {
  }

  lemma ClearedSame(w: bv32, n: bv32)
    ensures Masked(Cleared(w, n), n) == 0
  {
  }

  lemma FlippedSet(w: bv32, n: bv32)
    requires Masked(w, n) == n
    ensures Masked(Flipped(w, n), n) == 0
  {
  }

  lemma FlippedClear(w: bv32, n: bv32)
    requires Masked(w, n) == 0
    ensures Masked(Flipped(w, n), n) == n
  {
  }

  /** The or instruction with a bit's mask sets that bit and no other; the and instruction with
      its complement clears it; the xor instruction flips it. */
  lemma OrSets(w: bv32, j: nat, k: nat)
    requires j < 32 && k < 32
    ensures Bit(Marked(w, Mask(j)), k) <==> (k == j || Bit(w, k))
  {
    hide Mask, Masked, Marked;
    if k == j {
      MarkedSame(w, Mask(k));
      MaskNonZero(k);
    } else {
      MasksApart(j, k);
      MarkedApart(w, Mask(j), Mask(k));
    }
  }

  lemma AndClears(w: bv32, j: nat, k: nat)
    requires j < 32 && k < 32
    ensures Bit(Cleared(w, Mask(j)), k) <==> (k != j && Bit(w, k))
  {
    hide Mask, Masked, Cleared;
    if k == j {
      ClearedSame(w, Mask(k));
    } else {
      MasksApart(j, k);
      ClearedApart(w, Mask(j), Mask(k));
    }
  }

  lemma XorFlips(w: bv32, j: nat, k: nat)
    requires j < 32 && k < 32
    ensures Bit(Flipped(w, Mask(j)), k) <==> (if k == j then !Bit(w, k) else Bit(w, k))
  {
    hide Mask, Masked, Flipped;
    if k == j {
      OneBit(w, k);
      MaskNonZero(k);
      if Bit(w, k) {
        FlippedSet(w, Mask(k));
      } else {
        FlippedClear(w, Mask(k));
      }
    } else {
      MasksApart(j, k);
      FlippedApart(w, Mask(j), Mask(k));
    }
  }

  /** last_mask */
  function LastMask(bitCnt: nat): bv32 {
    var lastBits := bitCnt % 32;
    if lastBits != 0 then ((1 as bv32) << lastBits) - 1 else 0xFFFF_FFFF
  }

  lemma LastMaskBit(bitCnt: nat, j: nat)
    requires j < 32
    ensures Bit(LastMask(bitCnt), j) <==> (bitCnt % 32 == 0 || j < bitCnt % 32)
  {
  }

  lemma MaskedTwice(w: bv32, m: bv32, n: bv32)
    ensures Masked(m, n) == n ==> Masked(Masked(w, m), n) == Masked(w, n)
    ensures Masked(m, n) == 0 ==> Masked(Masked(w, m), n) == 0
  {
  }

  lemma MaskedBit(w: bv32, m: bv32, j: nat)
    requires j < 32
    ensures Bit(Masked(w, m), j) <==> Bit(w, j) && Bit(m, j)
  {
    hide Mask, Masked;
    OneBit(m, j);
    MaskNonZero(j);
    MaskedTwice(w, m, Mask(j));
  }

  // ---- the array of bits ----

  function ElemCnt(bitCnt: nat): nat { (bitCnt + 31) / 32 }

  function BitAt(words: seq<bv32>, i: nat): bool
    requires i < 32 * |words|
  {
    Bit(words[i / 32], i % 32)
  }

  /** The bits of a bitmap, first to last. */
  function Bits(words: seq<bv32>, cnt: nat): (r: seq<bool>)
    requires cnt <= 32 * |words|
    ensures |r| == cnt
  {
    seq(cnt, i requires 0 <= i < cnt => BitAt(words, i))
  }

  function Mark(m: seq<bool>, start: nat, cnt: nat, value: bool): (r: seq<bool>)
    ensures |r| == |m|
    ensures forall k | 0 <= k < |m| :: r[k] == if start <= k < start + cnt then value else m[k]
  {
    seq(|m|, k requires 0 <= k < |m| => if start <= k < start + cnt then value else m[k])
  }

  predicate AllAre(m: seq<bool>, start: nat, cnt: nat, value: bool) {
    start + cnt <= |m| && forall k | start <= k < start + cnt :: m[k] == value
  }

  /** The first place, from `i` on, where `cnt` bits in a row are `value`. */
  function Scan(m: seq<bool>, i: nat, cnt: nat, value: bool): Option<nat>
    decreases |m| - i
  {
    if i + cnt > |m| then None
    else if AllAre(m, i, cnt, value) then Some(i)
    else if i + cnt == |m| then None
    else Scan(m, i + 1, cnt, value)
  }

  lemma {:induction false} ScanFindsLowest(m: seq<bool>, i: nat, cnt: nat, value: bool)
    ensures var r := Scan(m, i, cnt, value);
      && (r.Some? ==> i <= r.value && AllAre(m, r.value, cnt, value))
      && (forall j | i <= j && (r.Some? ==> j < r.value) :: !AllAre(m, j, cnt, value))
    decreases |m| - i
  {
    if i + cnt < |m| && !AllAre(m, i, cnt, value) {
      ScanFindsLowest(m, i + 1, cnt, value);
    }
  }

  function Count(m: seq<bool>, start: nat, cnt: nat, value: bool): nat
    requires start + cnt <= |m|
    decreases cnt
  {
    if cnt == 0 then 0
    else Count(m, start, cnt - 1, value) + if m[start + cnt - 1] == value then 1 else 0
  }

  ghost function Matches(m: seq<bool>, start: nat, end: nat, value: bool): set<nat>
    requires end <= |m|
  {
    set k: nat | start <= k < end && m[k] == value
  }

  /** The count is the number of the places in the range that have the value. */
  lemma {:induction false} CountIs(m: seq<bool>, start: nat, cnt: nat, value: bool)
    requires start + cnt <= |m|
    ensures Count(m, start, cnt, value) == |Matches(m, start, start + cnt, value)|
    decreases cnt
  {
    if cnt == 0 {
      assert Matches(m, start, start, value) == {};
    } else {
      CountIs(m, start, cnt - 1, value);
      OnePlaceMore(m, start, start + (cnt - 1), value);
    }
  }

  lemma OnePlaceMore(m: seq<bool>, start: nat, last: nat, value: bool)
    requires start <= last < |m|
    ensures var before, here := Matches(m, start, last, value), Matches(m, start, last + 1, value);
      |here| == |before| + if m[last] == value then 1 else 0
  {
    var before, here := Matches(m, start, last, value), Matches(m, start, last + 1, value);
    if m[last] == value {
      assert here == before + {last} && last !in before;
    } else {
      assert here == before;
    }
  }

  /** struct bitmap */
  class BitMap {
    const bitCnt: nat
    const bits: array<bv32>

    ghost predicate Valid() {
      bits.Length == ElemCnt(bitCnt)
    }

    ghost function View(): seq<bool>
      requires Valid()
      reads bits
    {
      Bits(bits[..], bitCnt)
    }

    /** bitmap_create: whatever the memory held, all bits are false. */
    constructor Create(bitCnt: nat, memory: seq<bv32>)
      requires |memory| == ElemCnt(bitCnt)
      ensures Valid() && this.bitCnt == bitCnt && fresh(bits)
      ensures View() == seq(bitCnt, i => false)
    {
      hide Mask, Bit, Marked, Cleared, Flipped, Masked, LastMask;
      this.bitCnt := bitCnt;
      bits := new bv32[|memory|](i requires 0 <= i < |memory| => memory[i]);
      new;
      SetMultiple(0, bitCnt, false);
    }

    /** bitmap_mark, bitmap_reset and, by its argument, bitmap_set */
    method Set(idx: nat, value: bool)
      requires Valid() && idx < bitCnt
      modifies bits
      ensures View() == old(View())[idx := value]
    {
      hide Mask, Bit, Marked, Cleared, Flipped, Masked, LastMask;
      ghost var before := bits[..];
      if value {
        bits[idx / 32] := Marked(bits[idx / 32], Mask(idx % 32));
      } else {
        bits[idx / 32] := Cleared(bits[idx / 32], Mask(idx % 32));
      }
      WordChanged(before, bits[..], bitCnt, idx, value);
    }

    method Flip(idx: nat)
      requires Valid() && idx < bitCnt
      modifies bits
      ensures View() == old(View())[idx := !old(View())[idx]]
    {
      hide Mask, Bit, Marked, Cleared, Flipped, Masked, LastMask;
      ghost var before := bits[..];
      bits[idx / 32] := Flipped(bits[idx / 32], Mask(idx % 32));
      WordFlipped(before, bits[..], bitCnt, idx);
    }

    method Test(idx: nat) returns (b: bool)
      requires Valid() && idx < bitCnt
      ensures b == View()[idx]
    {
      b := Masked(bits[idx / 32], Mask(idx % 32)) != 0;
    }

    method SetMultiple(start: nat, cnt: nat, value: bool)
      requires Valid() && start + cnt <= bitCnt
      modifies bits
      ensures View() == Mark(old(View()), start, cnt, value)
    {
      hide Mask, Bit, Marked, Cleared, Flipped, Masked, LastMask;
      for i := 0 to cnt
        invariant View() == Mark(old(View()), start, i, value)
      {
        Set(start + i, value);
      }
    }

    method CountBits(start: nat, cnt: nat, value: bool) returns (n: nat)
      requires Valid() && start + cnt <= bitCnt
      ensures n == Count(View(), start, cnt, value)
    {
      hide Mask, Bit, Marked, Cleared, Flipped, Masked, LastMask;
      n := 0;
      for i := 0 to cnt
        invariant n == Count(View(), start, i, value)
      {
        var b := Test(start + i);
        if b == value {
          n := n + 1;
        }
      }
    }

    method Contains(start: nat, cnt: nat, value: bool) returns (b: bool)
      requires Valid() && start + cnt <= bitCnt
      ensures b <==> !AllAre(View(), start, cnt, !value)
    {
      hide Mask, Bit, Marked, Cleared, Flipped, Masked, LastMask;
      for i := 0 to cnt
        invariant forall k | start <= k < start + i :: View()[k] == !value
      {
        var t := Test(start + i);
        if t == value {
          return true;
        }
      }
      return false;
    }

    /** bitmap_scan. With `cnt` 0 it returns `start`. */
    method ScanBits(start: nat, cnt: nat, value: bool) returns (r: Option<nat>)
      requires Valid() && start <= bitCnt
      ensures r == Scan(View(), start, cnt, value)
    {
      hide Mask, Bit, Marked, Cleared, Flipped, Masked, LastMask;
      if cnt <= bitCnt {
        var last := bitCnt - cnt;
        var i := start;
        while i <= last
          invariant start <= i
          invariant Scan(View(), start, cnt, value) == Scan(View(), i, cnt, value)
        {
          var other := Contains(i, cnt, !value);
          if !other {
            return Some(i);
          }
          i := i + 1;
        }
      }
      return None;
    }

    method ScanAndFlip(start: nat, cnt: nat, value: bool) returns (r: Option<nat>)
      requires Valid() && start <= bitCnt
      modifies bits
      ensures r == Scan(old(View()), start, cnt, value)
      ensures View() == if r.Some? then Mark(old(View()), r.value, cnt, !value) else old(View())
    {
      hide Mask, Bit, Marked, Cleared, Flipped, Masked, LastMask;
      ghost var before := View();
      r := ScanBits(start, cnt, value);
      ScanFindsLowest(before, start, cnt, value);
      if r.Some? {
        SetMultiple(r.value, cnt, !value);
      }
    }

    /** bitmap_read of a file that bitmap_write wrote: the bits come back, and those past the last
        are cleared. */
    method Read(file: seq<bv32>)
      requires Valid() && |file| == ElemCnt(bitCnt)
      modifies bits
      ensures View() == Bits(file, bitCnt)
      ensures forall i | bitCnt <= i < 32 * bits.Length :: !BitAt(bits[..], i)
    {
      hide Mask, Bit, Marked, Cleared, Flipped, Masked, LastMask;
      if bitCnt > 0 {
        forall i | 0 <= i < |file| {
          bits[i] := file[i];
        }
        var last := ElemCnt(bitCnt) - 1;
        bits[last] := Masked(bits[last], LastMask(bitCnt));
        LastWordMasked(file, bits[..], bitCnt);
      }
    }

    /** bitmap_expand: the same bits, followed by `size` more that are false. */
    method Expand(size: nat, memory: seq<bv32>) returns (b: BitMap)
      requires Valid() && |memory| == ElemCnt(bitCnt + size)
      ensures fresh(b) && b.Valid() && b.View() == View() + seq(size, i => false)
    {
      hide Mask, Bit, Marked, Cleared, Flipped, Masked, LastMask;
      b := new BitMap.Create(bitCnt + size, memory);
      for i := 0 to bitCnt
        invariant fresh(b) && fresh(b.bits) && b.Valid() && b.bitCnt == bitCnt + size
        invariant bits[..] == old(bits[..])
        invariant b.View() == View()[..i] + seq(bitCnt + size - i, j => false)
      {
        var t := Test(i);
        b.Set(i, t);
      }
    }
  }

  lemma WordChanged(before: seq<bv32>, after: seq<bv32>, cnt: nat, idx: nat, value: bool)
    requires idx < cnt <= 32 * |before| && |after| == |before|
    requires after == before[idx / 32 := if value then Marked(before[idx / 32], Mask(idx % 32))
                                         else Cleared(before[idx / 32], Mask(idx % 32))]
    ensures Bits(after, cnt) == Bits(before, cnt)[idx := value]
  {
    hide Mask, Bit, Marked, Cleared, Flipped, Masked;
    forall i | 0 <= i < cnt ensures BitAt(after, i) == if i == idx then value else BitAt(before, i) {
      OrSets(before[idx / 32], idx % 32, i % 32);
      AndClears(before[idx / 32], idx % 32, i % 32);
    }
  }

  lemma WordFlipped(before: seq<bv32>, after: seq<bv32>, cnt: nat, idx: nat)
    requires idx < cnt <= 32 * |before| && |after| == |before|
    requires after == before[idx / 32 := Flipped(before[idx / 32], Mask(idx % 32))]
    ensures Bits(after, cnt) == Bits(before, cnt)[idx := !Bits(before, cnt)[idx]]
  {
    hide Mask, Bit, Marked, Cleared, Flipped, Masked;
    forall i | 0 <= i < cnt ensures BitAt(after, i) == if i == idx then !BitAt(before, i) else BitAt(before, i) {
      XorFlips(before[idx / 32], idx % 32, i % 32);
    }
  }

  lemma LastWordMasked(file: seq<bv32>, after: seq<bv32>, cnt: nat)
    requires 0 < cnt && |file| == ElemCnt(cnt)
    requires after == file[|file| - 1 := Masked(file[|file| - 1], LastMask(cnt))]
    ensures Bits(after, cnt) == Bits(file, cnt)
    ensures forall i | cnt <= i < 32 * |after| :: !BitAt(after, i)
  {
    hide Mask, Bit, LastMask, Masked;
    var last := |file| - 1;
    forall i: nat | i < 32 * |after| ensures BitAt(after, i) == (i < cnt && BitAt(file, i)) {
      MaskedBit(file[last], LastMask(cnt), i % 32);
      LastMaskBit(cnt, i % 32);
    }
  }
}
