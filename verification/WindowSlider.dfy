// Signed sliding-window recoding of an exponent.
//
// Each call of FindNextWindow peels one odd digit off the exponent. What the recoding promises is
// stated through Digit, the signed digit just found, and Rest, what is still to be recoded: both
// are weighed with their position, so that the old Rest is the digit at windowBegin plus the new Rest.

module WindowSliders {
  import opened Numbers

  // The window size used when the caller does not choose one.
  function DefaultWindowSize(expLen: nat): (w: nat)
    ensures 1 <= w <= 7
  {
    if expLen <= 17 then 1
    else if expLen <= 24 then 2
    else if expLen <= 70 then 3
    else if expLen <= 197 then 4
    else if expLen <= 539 then 5
    else if expLen <= 1434 then 6
    else 7
  }

  // The longest exponents for the window sizes from 1 to 6.
  lemma DefaultWindowSizeIs(expLen: nat, k: nat)
    requires k < 6
    ensures DefaultWindowSize(expLen) <= k + 1 <==> expLen <= [17, 24, 70, 197, 539, 1434][k]
  {
  }

  // Integer::WordCount() * WORD_BITS: the bits of the words that hold n.
  function WordBits(n: nat, wordBits: nat): (bits: nat)
    requires wordBits > 0
    ensures bits >= BitCount(n)
  {
    var words := (BitCount(n) + wordBits - 1) / wordBits;
    RoundingUp(BitCount(n), wordBits);
    words * wordBits
  }

  lemma RoundingUp(n: nat, d: int)
    requires d > 0
    ensures (n + d - 1) / d >= 0
    ensures n <= (n + d - 1) / d * d < n + d
  {
    var q := (n + d - 1) / d;
    assert n + d - 1 == q * d + (n + d - 1) % d;
    MultipleWithin(q, d);
    if q < 0 {
      MulMonotonic(q, -1, d);
    }
  }

  // A signed odd digit of at most w bits.
  predicate OddDigit(d: int, w: nat) {
    d % 2 == 1 && 0 - Pow2(w) < d < Pow2(w)
  }

  lemma {:induction false} LowIsOdd(e: nat, w: nat)
    requires e % 2 == 1 && w >= 1
    ensures Low(e, w) % 2 == 1
  {
    if w > 1 {
      LowIsOdd(e, w - 1);
      Pow2IsEven(w - 1);
    } else {
      assert Low(e, 0) == 0 && Shr(e, 0) == e && Pow2(0) == 1;
    }
  }

  lemma Pow2IsEven(w: nat)
    requires w >= 1
    ensures Pow2(w) % 2 == 0
  {
    DivIsUnique(Pow2(w), 2, Pow2(w - 1), 0);
  }

  lemma OddDifference(even: nat, odd: nat)
    requires even % 2 == 0 && odd % 2 == 1
    ensures (even - odd) % 2 == 1 && (0 - (even - odd)) % 2 == 1
  {
  }

  // The low window of an odd number is odd, and so is its complement.
  lemma OddWindow(e: nat, w: nat)
    requires e % 2 == 1 && w >= 1
    ensures Low(e, w) % 2 == 1 && (Pow2(w) - Low(e, w)) % 2 == 1
    ensures OddDigit(Low(e, w), w)
    ensures OddDigit(0 - (Pow2(w) - Low(e, w)), w)
  {
    LowIsOdd(e, w);
    Pow2IsEven(w);
    OddDifference(Pow2(w), Low(e, w));
  }

  // A window and what lies above it, at position b, make up the value there. The carry form moves
  // one unit of 2^w from the window to the part above.
  lemma WindowValue(e: nat, w: nat, b: nat)
    ensures Shl(e, b) == Shl(Low(e, w), b) + Shl(Shr(e, w), b + w)
    ensures Shl(e, b) == Shl(Low(e, w) - Pow2(w), b) + Shl(Shr(e, w) + 1, b + w)
  {
    ShrSplit(e, w);
    var hi, low := Shr(e, w), Low(e, w);
    ShlOne(w);
    ShlAdds(Shl(hi, w), low, b);
    ShlShl(hi, w, b);
    ShlAdds(low, Pow2(w), b);
    ShlShl(1, w, b);
    ShlAdds(hi, 1, b + w);
  }

  lemma PositionBound(e: nat, b: nat, n: nat)
    requires e > 0 && Shl(e, b) <= Pow2(n)
    ensures b <= n
  {
    ShlMonotonic(1, e, b);
    ShlOne(b);
    if n < b {
      Pow2Monotonic(n, b);
    }
  }

  // A number below 2^n with a one bit at position k stays at most 2^n when it is rounded up there.
  lemma CarryBound(h: nat, k: nat, n: nat)
    requires 0 < h && Shl(h, k) < Pow2(n)
    ensures Shl(h + 1, k) <= Pow2(n)
  {
    PositionBound(h, k, n);
    ShlOne(n - k);
    ShlOne(n);
    var m := Pow2(n - k);
    ShlShl(1, n - k, k);
    if m <= h {
      ShlMonotonic(m, h, k);
    }
    ShlMonotonic(h + 1, m, k);
  }

  // One more zero bit skipped.
  lemma SkipBit(e: nat, start: nat, skip: nat)
    requires start <= skip && !GetBit(e, skip)
    requires Shr(e, start) == Shl(Shr(e, skip), skip - start)
    ensures Shr(e, start) == Shl(Shr(e, skip + 1), skip + 1 - start)
  {
    ShlShl(Shr(e, skip + 1), 1, skip - start);
    assert Shl(Shr(e, skip + 1), 1) == 2 * Shr(e, skip + 1);
  }

  lemma ShrAfterCarry(e: nat, w: nat)
    ensures Shr(e + Pow2(w), w) == Shr(e, w) + 1
  {
    ShrSplit(e, w);
    ShlOne(w);
    ShlAdds(Shr(e, w), 1, w);
    SplitIsUnique(e + Pow2(w), w, Shr(e, w) + 1, Low(e, w));
  }

  // Peeling the low window off an odd number at position b.
  lemma PeelWindow(e: nat, w: nat, b: nat, n: nat)
    requires e % 2 == 1 && w >= 1 && Shl(e, b) <= Pow2(n)
    ensures b <= n
    ensures Low(e, w) % 2 == 1 && OddDigit(Low(e, w), w)
    ensures Shl(e, b) == Shl(Low(e, w), b) + Shl(Shr(e, w), b + w)
    ensures 0 <= Shl(Shr(e, w), b + w) <= Pow2(n)
  {
    PositionBound(e, b, n);
    OddWindow(e, w);
    WindowValue(e, w, b);
    ShlMonotonic(0, Low(e, w), b);
    ShlMonotonic(0, Shr(e, w), b + w);
  }

  // Peeling the complement of the low window, with a carry into an odd number above it.
  lemma PeelWindowWithCarry(e: nat, w: nat, b: nat, n: nat)
    requires e % 2 == 1 && w >= 1 && Shl(e, b) <= Pow2(n) && Shr(e, w) % 2 == 1
    ensures (Pow2(w) - Low(e, w)) % 2 == 1 && OddDigit(0 - (Pow2(w) - Low(e, w)), w)
    ensures Shl(e, b) == Shl(0 - (Pow2(w) - Low(e, w)), b) + Shl(Shr(e + Pow2(w), w), b + w)
    ensures 0 <= Shl(Shr(e + Pow2(w), w), b + w) <= Pow2(n)
    ensures Shr(e + Pow2(w), w) % 2 == 0
  {
    OddWindow(e, w);
    WindowValue(e, w, b);
    ShrAfterCarry(e, w);
    ShlMonotonic(0, Low(e, w), b);
    ShlMonotonic(1, Low(e, w), b);
    CarryBound(Shr(e, w), b + w, n);
    ShlMonotonic(0, Shr(e, w) + 1, b + w);
  }

  class WindowSlider {
    const WORD_BITS: nat
    var exp: nat
    const windowModulus: nat
    const windowSize: nat
    var windowBegin: nat
    var expWindow: nat
    const fastNegate: bool
    var negateNext: bool
    var firstTime: bool
    var finished: bool

    // The bit count of the exponent the slider was made from.
    ghost const bitCount: nat
    // The place of the slider among the sliders of one multiplication.
    ghost const place: nat

    ghost predicate Valid()
      reads this
    {
      && WORD_BITS > 0
      && 1 <= windowSize < 32
      && windowModulus == Pow2(windowSize)
      && 0 <= expWindow < windowModulus
      && (finished ==> !firstTime)
      && (firstTime ==> windowBegin == 0)
      && (!firstTime && !finished ==> WindowFound())
      && RestBounded()
    }

    // A digit has been found: it is odd, and fast negation has left an even number above it.
    ghost predicate WindowFound()
      reads this
    {
      && expWindow % 2 == 1
      && windowBegin <= bitCount
      && (fastNegate ==> Shr(exp, windowSize) % 2 == 0)
    }

    // What is left to recode never exceeds 2^bitCount, although exp can grow.
    ghost predicate RestBounded()
      reads this
    {
      Rest() <= Pow2(bitCount)
    }

    // The signed digit found last.
    function Digit(): int
      reads this
    {
      if negateNext then 0 - expWindow else expWindow
    }

    // The value of the part of the exponent beyond the current window.
    ghost function Rest(): int
      reads this
    {
      if finished then 0
      else if firstTime then Shl(exp, windowBegin)
      else Shl(Shr(exp, windowSize), windowBegin + windowSize)
    }

    // The value of the current window and everything beyond it.
    ghost function Pending(): int
      reads this
    {
      if finished then 0 else if firstTime then Rest() else Shl(Digit(), windowBegin) + Rest()
    }

    constructor (expIn: nat, fastNegate: bool, windowSizeIn: nat, wordBits: nat, ghost place: nat)
      requires windowSizeIn < 32 && wordBits > 0
      ensures Valid() && firstTime && !finished && windowBegin == 0
      ensures exp == expIn && Rest() == expIn && bitCount == BitCount(expIn)
      ensures this.fastNegate == fastNegate && this.place == place
      ensures windowSize == if windowSizeIn == 0 then DefaultWindowSize(BitCount(expIn)) else windowSizeIn
    {
      var size := windowSizeIn;
      if size == 0 {
        size := DefaultWindowSize(BitCount(expIn));
      }
      WORD_BITS := wordBits;
      exp := expIn;
      windowSize := size;
      windowModulus := Pow2(size);
      windowBegin := 0;
      expWindow := 0;
      this.fastNegate := fastNegate;
      negateNext := false;
      firstTime := true;
      finished := false;
      bitCount := BitCount(expIn);
      this.place := place;
      new;
      BitCountBounds(expIn);
    }

    // The first one bit of the exponent at or above start, if there is one.
    method SkipZeros(start: nat) returns (skipCount: nat, found: bool)
      requires WORD_BITS > 0
      ensures found ==> start <= skipCount && GetBit(exp, skipCount)
      ensures found ==> Shr(exp, start) == Shl(Shr(exp, skipCount), skipCount - start)
      ensures !found ==> Shr(exp, start) == 0
    {
      var expLen := WordBits(exp, WORD_BITS);
      skipCount := start;
      while !GetBit(exp, skipCount)
        invariant start <= skipCount
        invariant Shr(exp, start) == Shl(Shr(exp, skipCount), skipCount - start)
        decreases expLen + start + 1 - skipCount
      {
        if skipCount >= expLen {
          ShrBeyond(exp, skipCount);
          ShlMonotonic(0, 0, skipCount - start);
          found := false;
          return;
        }
        SkipBit(exp, start, skipCount);
        skipCount := skipCount + 1;
      }
      found := true;
    }

    // The low windowSize bits of the exponent.
    method LowWindow() returns (low: nat)
      requires windowModulus == Pow2(windowSize)
      ensures low == Low(exp, windowSize)
    {
      ShrIsDiv(exp, windowSize);
      low := exp % windowModulus;
    }

    // The window that begins at the one bit found becomes the current digit.
    method PeelDigit(skipCount: nat)
      requires WORD_BITS > 0 && 1 <= windowSize < 32 && windowModulus == Pow2(windowSize)
      requires !finished && !firstTime && GetBit(exp, skipCount)
      requires Shl(Shr(exp, skipCount), windowBegin + skipCount) <= Pow2(bitCount)
      modifies this
      ensures Valid() && !finished && !firstTime && windowBegin == old(windowBegin) + skipCount <= bitCount
      ensures Shl(old(Shr(exp, skipCount)), windowBegin) == Shl(Digit(), windowBegin) + Rest()
      ensures OddDigit(Digit(), windowSize) && (!fastNegate ==> Digit() > 0)
    {
      exp := Shr(exp, skipCount);
      windowBegin := windowBegin + skipCount;
      expWindow := LowWindow();
      if fastNegate && GetBit(exp, windowSize) {
        Complement();
      } else {
        PeelWindow(exp, windowSize, windowBegin, bitCount);
        negateNext := false;
      }
    }

    // The complement of the window, to be subtracted, and the carry.
    method Complement()
      requires WORD_BITS > 0 && 1 <= windowSize < 32 && windowModulus == Pow2(windowSize)
      requires !finished && !firstTime && fastNegate && exp % 2 == 1 && GetBit(exp, windowSize)
      requires expWindow == Low(exp, windowSize) && Shl(exp, windowBegin) <= Pow2(bitCount)
      modifies `negateNext, `expWindow, `exp
      ensures Valid() && windowBegin <= bitCount && OddDigit(Digit(), windowSize)
      ensures Shl(old(exp), windowBegin) == Shl(Digit(), windowBegin) + Rest()
    {
      PeelWindow(exp, windowSize, windowBegin, bitCount);
      PeelWindowWithCarry(exp, windowSize, windowBegin, bitCount);
      negateNext := true;
      expWindow := windowModulus - expWindow;
      exp := exp + windowModulus;
    }

    method FindNextWindow()
      requires Valid() && !finished
      modifies this
      ensures Valid() && !firstTime
      // Nothing but zero is left when the slider finishes.
      ensures finished ==> old(Rest()) == 0 && windowBegin == old(windowBegin)
      // Otherwise the digit and the new rest make up the old rest.
      ensures !finished ==> old(Rest()) == Shl(Digit(), windowBegin) + Rest()
      ensures !finished ==> OddDigit(Digit(), windowSize)
      ensures !finished && !fastNegate ==> Digit() > 0
      // Windows never overlap, and fast negation leaves a gap between them.
      ensures !finished && !old(firstTime) ==>
        windowBegin >= old(windowBegin) + windowSize + (if fastNegate then 1 else 0)
      ensures !finished ==> windowBegin <= bitCount
    {
      var start := if firstTime then 0 else windowSize;
      firstTime := false;
      var skipCount, found := SkipZeros(start);
      if found {
        ShlShl(Shr(exp, skipCount), skipCount - start, windowBegin + start);
        PeelDigit(skipCount);
      } else {
        ShlMonotonic(0, 0, windowBegin + start);
        finished := true;
      }
    }
  }

  // A signed digit and the position of its lowest bit.
  datatype Window = Window(digit: int, position: nat)

  ghost function WindowSum(windows: seq<Window>): int {
    if windows == [] then 0
    else WindowSum(windows[..|windows| - 1]) + Shl(windows[|windows| - 1].digit, windows[|windows| - 1].position)
  }

  // All the digits are odd and of at most w bits, consecutive windows are at least gap apart, none
  // begins beyond the given bound, and without fast negation every digit is positive.
  ghost predicate SparseOddDigits(windows: seq<Window>, w: nat, fastNegate: bool, bound: nat) {
    windows == [] ||
    (var rest, last := windows[..|windows| - 1], windows[|windows| - 1];
     && OddDigit(last.digit, w) && (fastNegate || last.digit > 0) && last.position <= bound
     && (rest != [] ==> last.position >= rest[|rest| - 1].position + w + (if fastNegate then 1 else 0))
     && SparseOddDigits(rest, w, fastNegate, bound))
  }

  // What that means for any two windows.
  lemma {:induction false} WindowsAreSparse(windows: seq<Window>, w: nat, fastNegate: bool, bound: nat, j: nat, k: nat)
    requires SparseOddDigits(windows, w, fastNegate, bound) && j < k < |windows|
    ensures windows[k].position >= windows[j].position + w + (if fastNegate then 1 else 0)
    ensures OddDigit(windows[j].digit, w) && OddDigit(windows[k].digit, w) && windows[k].position <= bound
  {
    var rest := windows[..|windows| - 1];
    if k < |rest| {
      WindowsAreSparse(rest, w, fastNegate, bound, j, k);
    } else if j < |rest| - 1 {
      WindowsAreSparse(rest, w, fastNegate, bound, j, |rest| - 1);
    }
  }

  lemma AppendWindow(windows: seq<Window>, last: Window, w: nat, fastNegate: bool, bound: nat)
    requires SparseOddDigits(windows, w, fastNegate, bound)
    requires OddDigit(last.digit, w) && (fastNegate || last.digit > 0) && last.position <= bound
    requires windows != [] ==>
      last.position >= windows[|windows| - 1].position + w + (if fastNegate then 1 else 0)
    ensures SparseOddDigits(windows + [last], w, fastNegate, bound)
    ensures WindowSum(windows + [last]) == WindowSum(windows) + Shl(last.digit, last.position)
  {
    assert (windows + [last])[..|windows|] == windows;
  }

  // The run of one slider, window by window, as the multiplication loops drive it.
  method Recode(exponent: nat, fastNegate: bool, windowSizeIn: nat, wordBits: nat)
    returns (windows: seq<Window>, w: nat)
    requires windowSizeIn < 32 && wordBits > 0
    ensures w == if windowSizeIn == 0 then DefaultWindowSize(BitCount(exponent)) else windowSizeIn
    ensures WindowSum(windows) == exponent
    ensures SparseOddDigits(windows, w, fastNegate, BitCount(exponent))
  {
    var slider := new WindowSlider(exponent, fastNegate, windowSizeIn, wordBits, 0);
    windows, w := [], slider.windowSize;
    ghost var bound := BitCount(exponent);
    slider.FindNextWindow();
    while !slider.finished
      invariant fresh(slider) && slider.Valid() && !slider.firstTime
      invariant slider.fastNegate == fastNegate && slider.windowSize == w && slider.bitCount == bound
      invariant WindowSum(windows) + slider.Pending() == exponent
      invariant SparseOddDigits(windows, w, fastNegate, bound)
      invariant !slider.finished ==> OddDigit(slider.Digit(), w) && (fastNegate || slider.Digit() > 0)
      invariant !slider.finished && windows != [] ==>
        slider.windowBegin >= windows[|windows| - 1].position + w + (if fastNegate then 1 else 0)
      decreases !slider.finished, bound + 1 - slider.windowBegin
    {
      AppendWindow(windows, Window(slider.Digit(), slider.windowBegin), w, fastNegate, bound);
      windows := windows + [Window(slider.Digit(), slider.windowBegin)];
      slider.FindNextWindow();
    }
  }
}
