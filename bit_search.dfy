/** The binary search over bit positions inside msb64 (quad_tree.cpp): mask is
    the bit at position depth and moves towards the single set bit v = 1 << k
    in steps of shift, which halves on every step. The step lemmas are stated
    over the state before and the state after one step. */
module BitSearch {

  /** Shifting a single bit is strictly monotone in the shift amount. */
  lemma BitOrder(a: bv8, b: bv8)
    requires a < 64 && b < 64
    ensures (1 as bv64) << a < (1 as bv64) << b <==> a < b
    ensures (1 as bv64) << a == (1 as bv64) << b <==> a == b
  {}

  /** v is the single bit at position k (at most 58, the tag bit of the deepest
      key), or v is 0 and k is 0. */
  predicate BitAt(v: bv64, k: bv8)
  {
    k <= 58 && ((v == 0 && k == 0) || v == (1 as bv64) << k)
  }

  /** shift is 32, 16, 8, 4, 2, 1 or 0, and depth +- shift stays within 0 .. 63. */
  predicate Window(depth: bv8, shift: bv8)
  {
    (shift == 32 || shift == 16 || shift == 8 || shift == 4 || shift == 2 || shift == 1 || shift == 0) &&
    depth <= 62 && shift <= depth + 1 && depth + shift <= 63
  }

  /** k is depth, or lies strictly within shift of it. */
  predicate Near(k: bv8, depth: bv8, shift: bv8)
  {
    k == depth || (k > depth && k - depth < shift) || (depth > k && depth - k < shift)
  }

  /** The loop invariant of the search. */
  predicate SearchInv(k: bv8, mask: bv64, depth: bv8, shift: bv8)
  {
    Window(depth, shift) && mask == (1 as bv64) << depth && Near(k, depth, shift)
  }

  /** Shifting the bit at d left by one of the step sizes lands on the bit at d + s. */
  lemma ShiftUp(d: bv8, s: bv8)
    requires s == 32 || s == 16 || s == 8 || s == 4 || s == 2 || s == 1 || s == 0
    requires d + s <= 63 && d <= 63
    ensures ((1 as bv64) << d) << s == (1 as bv64) << (d + s)
  {
    if s == 32 {
      assert ((1 as bv64) << d) << 32 == (1 as bv64) << (d + 32);
    } else if s == 16 {
      assert ((1 as bv64) << d) << 16 == (1 as bv64) << (d + 16);
    } else if s == 8 {
      assert ((1 as bv64) << d) << 8 == (1 as bv64) << (d + 8);
    } else if s == 4 {
      assert ((1 as bv64) << d) << 4 == (1 as bv64) << (d + 4);
    } else if s == 2 {
      assert ((1 as bv64) << d) << 2 == (1 as bv64) << (d + 2);
    } else if s == 1 {
      assert ((1 as bv64) << d) << 1 == (1 as bv64) << (d + 1);
    }
  }

  /** Shifting the bit at d right by one of the step sizes lands on the bit at d - s. */
  lemma ShiftDown(d: bv8, s: bv8)
    requires s == 32 || s == 16 || s == 8 || s == 4 || s == 2 || s == 1 || s == 0
    requires s <= d <= 63
    ensures ((1 as bv64) << d) >> s == (1 as bv64) << (d - s)
  {
    if s == 32 {
      assert ((1 as bv64) << d) >> 32 == (1 as bv64) << (d - 32);
    } else if s == 16 {
      assert ((1 as bv64) << d) >> 16 == (1 as bv64) << (d - 16);
    } else if s == 8 {
      assert ((1 as bv64) << d) >> 8 == (1 as bv64) << (d - 8);
    } else if s == 4 {
      assert ((1 as bv64) << d) >> 4 == (1 as bv64) << (d - 4);
    } else if s == 2 {
      assert ((1 as bv64) << d) >> 2 == (1 as bv64) << (d - 2);
    } else if s == 1 {
      assert ((1 as bv64) << d) >> 1 == (1 as bv64) << (d - 1);
    }
  }

  /** Stepping depth up by shift / 2 keeps the window and keeps k near. */
  lemma WindowUp(k: bv8, depth: bv8, shift: bv8, depth': bv8, shift': bv8)
    requires Window(depth, shift) && Near(k, depth, shift) && shift != 0 && k > depth && k <= 58
    requires shift' == shift / 2 && depth' == depth + shift'
    ensures Window(depth', shift') && Near(k, depth', shift')
  {
    if shift == 32 {
      assert shift' == 16;
    } else if shift == 16 {
      assert shift' == 8;
    } else if shift == 8 {
      assert shift' == 4;
    } else if shift == 4 {
      assert shift' == 2;
    } else if shift == 2 {
      assert shift' == 1;
    }
  }

  /** Stepping depth down by shift / 2 keeps the window and keeps k near. */
  lemma WindowDown(k: bv8, depth: bv8, shift: bv8, depth': bv8, shift': bv8)
    requires Window(depth, shift) && Near(k, depth, shift) && shift != 0 && (k < depth || shift == 1)
    requires shift' == shift / 2 && depth' == depth - shift'
    ensures Window(depth', shift') && Near(k, depth', shift')
  {
    if shift == 32 {
      assert shift' == 16;
    } else if shift == 16 {
      assert shift' == 8;
    } else if shift == 8 {
      assert shift' == 4;
    } else if shift == 4 {
      assert shift' == 2;
    } else if shift == 2 {
      assert shift' == 1;
    }
  }

  /** Comparing v with mask compares k with depth. */
  lemma Compare(v: bv64, k: bv8, mask: bv64, depth: bv8)
    requires BitAt(v, k) && depth <= 62 && mask == (1 as bv64) << depth
    ensures v > mask ==> k > depth
    ensures v < mask ==> k < depth || (v == 0 && k == 0)
    ensures v == mask ==> k == depth
    ensures !(v > mask) && !(v < mask) ==> k == depth
  {
    BitOrder(k, depth);
  }

  /** The step of the branch v > mask keeps the invariant. */
  lemma SearchUp(k: bv8, mask: bv64, depth: bv8, shift: bv8, mask': bv64, depth': bv8, shift': bv8)
    requires SearchInv(k, mask, depth, shift) && shift != 0 && k > depth && k <= 58
    requires shift' == shift / 2 && mask' == mask << shift' && depth' == depth + shift'
    ensures SearchInv(k, mask', depth', shift')
  {
    WindowUp(k, depth, shift, depth', shift');
    ShiftUp(depth, shift');
  }

  /** The step of the branch v < mask keeps the invariant. */
  lemma SearchDown(k: bv8, mask: bv64, depth: bv8, shift: bv8, mask': bv64, depth': bv8, shift': bv8)
    requires SearchInv(k, mask, depth, shift) && shift != 0 && (k < depth || k == 0)
    requires shift' == shift / 2 && mask' == mask >> shift' && depth' == depth - shift'
    ensures SearchInv(k, mask', depth', shift')
  {
    WindowDown(k, depth, shift, depth', shift');
    ShiftDown(depth, shift');
  }

  /** When mask meets v, or shift has run out, depth is the position sought. */
  lemma SearchFound(v: bv64, k: bv8, mask: bv64, depth: bv8, shift: bv8)
    requires BitAt(v, k) && SearchInv(k, mask, depth, shift) && (shift == 0 || v == mask)
    ensures depth == k
  {
    Compare(v, k, mask, depth);
  }

  /** One iteration of the search loop: halve shift, then move mask and depth
      up or down by it, or report that mask already equals v (the loop's break). */
  method SearchStep(v: bv64, ghost k: bv8, mask: bv64, depth: bv8, shift: bv8)
    returns (mask': bv64, depth': bv8, shift': bv8, found: bool)
    requires BitAt(v, k) && SearchInv(k, mask, depth, shift) && shift != 0
    ensures found ==> depth' == k
    ensures !found ==> SearchInv(k, mask', depth', shift') && shift' < shift
  {
    Compare(v, k, mask, depth);
    shift' := shift / 2;
    if v > mask {
      mask' := mask << shift';
      depth' := depth + shift';
      SearchUp(k, mask, depth, shift, mask', depth', shift');
      found := false;
    } else if v < mask {
      mask' := mask >> shift';
      depth' := depth - shift';
      SearchDown(k, mask, depth, shift, mask', depth', shift');
      found := false;
    } else {
      mask', depth', found := mask, depth, true;
    }
  }
}
