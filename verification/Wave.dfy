/**
  The lanes of one wavefront running in lockstep.  A 64-bit word is the sequence
  of its bits, least significant first; bit i of a ballot belongs to lane i.
*/
module Wave {

  /** WF_SIZE and __AMDGCN_WAVEFRONT_SIZE */
  const WF_SIZE := 64

  type Word = w: seq<bool> | |w| == WF_SIZE witness seq(WF_SIZE, _ => false)

  /** How a shift by the full width is read: as zero, or modulo the width. */
  datatype WideShift = ToZero | ModuloWidth

  function And(a: Word, b: Word): Word { seq(WF_SIZE, i requires 0 <= i < WF_SIZE => a[i] && b[i]) }

  function Not(a: Word): Word { seq(WF_SIZE, i requires 0 <= i < WF_SIZE => !a[i]) }

  function AllOnes(): Word { seq(WF_SIZE, _ => true) }

  function ShiftLeft(a: Word, k: nat): Word
    requires k < WF_SIZE
  { seq(WF_SIZE, i requires 0 <= i < WF_SIZE => i >= k && a[i - k]) }

  function ShiftRight(a: Word, k: nat, wide: WideShift): Word
    requires k <= WF_SIZE
  {
    if k == WF_SIZE && wide.ModuloWidth? then a
    else seq(WF_SIZE, i requires 0 <= i < WF_SIZE => i + k < WF_SIZE && a[i + k])
  }

  /** A shift by the full width gives nothing, or the word itself if the hardware looks only at the low bits of the distance. */
  lemma ShiftByWidth(a: Word, wide: WideShift, i: int)
    requires 0 <= i < WF_SIZE
    ensures ShiftRight(a, WF_SIZE, wide)[i] <==> wide.ModuloWidth? && a[i]
  {}

  /** `__popcll` */
  function PopCount(bits: seq<bool>): nat {
    if bits == [] then 0 else PopCount(bits[..|bits| - 1]) + if bits[|bits| - 1] then 1 else 0
  }

  /** `__ffsll`: one more than the index of the first set bit, 0 if there is none. */
  function FindFirstSet(bits: seq<bool>): nat { FindFrom(bits, 0) }

  function FindFrom(bits: seq<bool>, i: nat): nat
    requires i <= |bits|
    decreases |bits| - i
  {
    if i == |bits| then 0 else if bits[i] then i + 1 else FindFrom(bits, i + 1)
  }

  lemma {:induction false} FindFromIs(bits: seq<bool>, i: nat, k: nat)
    requires i <= k < |bits| && bits[k] && forall j :: i <= j < k ==> !bits[j]
    ensures FindFrom(bits, i) == k + 1
    decreases k - i
  {
    if i < k { FindFromIs(bits, i + 1, k); }
  }

  /** The result is 0 exactly if no bit is set. */
  lemma {:induction false} FindFromNone(bits: seq<bool>, i: nat)
    requires i <= |bits|
    ensures FindFrom(bits, i) == 0 <==> forall j :: i <= j < |bits| ==> !bits[j]
    decreases |bits| - i
  {
    if i < |bits| && !bits[i] { FindFromNone(bits, i + 1); }
  }

  lemma {:induction false} PopCountPositive(bits: seq<bool>, i: nat)
    requires i < |bits| && bits[i]
    ensures PopCount(bits) >= 1
  {
    if i < |bits| - 1 { PopCountPositive(bits[..|bits| - 1], i); }
  }

  lemma {:induction false} PopCountZero(bits: seq<bool>)
    requires forall i :: 0 <= i < |bits| ==> !bits[i]
    ensures PopCount(bits) == 0
  {
    if bits != [] { PopCountZero(bits[..|bits| - 1]); }
  }

  /** Trailing zero bits do not count. */
  lemma {:induction false} PopCountPrefix(bits: seq<bool>, k: nat)
    requires k <= |bits| && forall i :: k <= i < |bits| ==> !bits[i]
    ensures PopCount(bits) == PopCount(bits[..k])
    decreases |bits|
  {
    if k == |bits| {
      assert bits[..k] == bits;
    } else {
      PopCountPrefix(bits[..|bits| - 1], k);
      assert bits[..|bits| - 1][..k] == bits[..k];
    }
  }
}
