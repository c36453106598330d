/** libntp/dolfptoa.c: printing a 64-bit fixed-point number in decimal. */
module Dolfptoa {
  import opened CInt
  import opened Decimal

  const INT_DIGITS := 10
  const BUF_SIZE := 24

  // ----- what is printed

  function Chars(s: seq<int>): (r: string)
    requires Digits(s)
    ensures |r| == |s|
  {
    seq(|s|, i requires 0 <= i < |s| => '0' + s[i] as char)
  }

  /** The number of digits after the point before any shift to milliseconds. */
  function Places(ndec: int, msec: bool): nat {
    var d := (if ndec < 0 then 0 else ndec) + (if msec then 3 else 0);
    if d > BUF_SIZE - INT_DIGITS then BUF_SIZE - INT_DIGITS else d
  }

  /** The number of units of 10^-d nearest to lfp / 2^32, halves rounded up. */
  function Rounded(lfp: nat, d: nat): nat { (lfp * Pow10(d) + TWO31) / TWO32 }

  /** `n` units of 10^-places in decimal notation. */
  function Format(neg: bool, n: nat, places: nat): string {
    (if neg then "-" else "") + Chars(Shortest(High(n, places))) +
    (if places > 0 then "." + Chars(Fixed(n, places)) else "")
  }

  // ----- arithmetic on two 32-bit words

  /** M_LSHIFT: double a number held in two words. */
  method ShiftLeft(i: int, f: int) returns (j: int, g: int)
    requires 0 <= i < TWO31 && 0 <= f < TWO32
    ensures 0 <= j < TWO32 && 0 <= g < TWO32 && j * TWO32 + g == 2 * (i * TWO32 + f)
  {
    j, g := U32(2 * i) + f / TWO31, U32(2 * f);
  }

  /** M_ADD: add two numbers held in two words each. */
  method AddWords(ri: int, rf: int, ai: int, af: int) returns (i: int, f: int)
    requires 0 <= rf < TWO32 && 0 <= af < TWO32 && 0 <= ri && 0 <= ai && ri + ai < TWO32 - 1
    ensures 0 <= i < TWO32 && 0 <= f < TWO32 && i * TWO32 + f == (ri + ai) * TWO32 + rf + af
  {
    var addT := rf;
    f := U32(rf + af);
    i := U32(ri + ai + if f < addT then 1 else 0);
  }

  /** One step of the fraction loop: the fraction times ten, as a digit and what is left. */
  method TimesTen(fpv: int) returns (digit: int, rest: int)
    requires 0 <= fpv < TWO32
    ensures 0 <= digit <= 9 && 0 <= rest < TWO32 && digit * TWO32 + rest == 10 * fpv
  {
    digit, rest := ShiftLeft(0, fpv);
    var tmph, tmpl := digit, rest;
    digit, rest := ShiftLeft(digit, rest);
    digit, rest := ShiftLeft(digit, rest);
    digit, rest := AddWords(digit, rest, tmph, tmpl);
  }

  /** Ten times the quotient, by shifts, leaves the last digit. */
  lemma LastDigit(fpi: int)
    requires 0 <= fpi < TWO32
    ensures U32(fpi - U32(U32(fpi / 10 * 8) + U32(fpi / 10 * 2))) == fpi % 10
  {
    var q := fpi / 10;
    assert U32(q * 8) == q * 8 && U32(q * 2) == q * 2;
  }

  // ----- the loops

  predicate Zeros(s: seq<int>) { forall i :: 0 <= i < |s| ==> s[i] == 0 }

  /** The digits of the integral part, from the right, into a cleared buffer. */
  method IntPart(cbuf: array<int>, fpi0: int) returns (cp: nat)
    requires cbuf.Length == BUF_SIZE && Zeros(cbuf[..]) && 0 <= fpi0 < TWO32
    modifies cbuf
    ensures cp <= INT_DIGITS && Zeros(cbuf[..cp]) && Zeros(cbuf[INT_DIGITS..])
    ensures cbuf[..INT_DIGITS] == Fixed(fpi0, INT_DIGITS)
  {
    var fpi := fpi0;
    cp := INT_DIGITS;
    var dec: int := INT_DIGITS;
    while dec > 0 && fpi != 0
      invariant 0 <= dec == cp <= INT_DIGITS && 0 <= fpi < TWO32
      invariant Zeros(cbuf[..cp]) && Zeros(cbuf[INT_DIGITS..])
      invariant Fixed(fpi0, INT_DIGITS) == Fixed(fpi, cp) + cbuf[cp..INT_DIGITS]
      decreases dec
    {
      ghost var was := cbuf[cp..INT_DIGITS];
      LastDigit(fpi);
      var digit := fpi;
      fpi := fpi / 10;
      digit := U32(digit - U32(U32(fpi * 8) + U32(fpi * 2)));
      cp := cp - 1;
      cbuf[cp] := digit;
      assert cbuf[cp..INT_DIGITS] == [digit] + was;
      dec := dec - 1;
    }
    if fpi == 0 { FixedZero(cp); }
    assert cbuf[..INT_DIGITS] == cbuf[..cp] + cbuf[cp..INT_DIGITS];
  }

  /** The digits of the fraction, until there are enough or nothing is left. */
  method FracPart(cbuf: array<int>, lfp: nat, fpv0: int, d: nat) returns (cpend: nat, fpv: int)
    requires cbuf.Length == BUF_SIZE && INT_DIGITS + d <= BUF_SIZE && 0 <= fpv0 < TWO32
    requires Digits(cbuf[..]) && Zeros(cbuf[INT_DIGITS..]) && Num(cbuf[..INT_DIGITS]) * TWO32 + fpv0 == lfp
    modifies cbuf
    ensures INT_DIGITS <= cpend <= INT_DIGITS + d && 0 <= fpv < TWO32 && (cpend < INT_DIGITS + d ==> fpv == 0)
    ensures Digits(cbuf[..]) && Zeros(cbuf[cpend..]) && cbuf[..INT_DIGITS] == old(cbuf[..INT_DIGITS])
    ensures Num(cbuf[..cpend]) * TWO32 + fpv == lfp * Pow10(cpend - INT_DIGITS)
  {
    cpend, fpv := INT_DIGITS, fpv0;
    var dec := d;
    while dec > 0 && fpv != 0
      invariant cpend + dec == INT_DIGITS + d && INT_DIGITS <= cpend && 0 <= fpv < TWO32
      invariant Digits(cbuf[..]) && Zeros(cbuf[cpend..]) && cbuf[..INT_DIGITS] == old(cbuf[..INT_DIGITS])
      invariant Num(cbuf[..cpend]) * TWO32 + fpv == lfp * Pow10(cpend - INT_DIGITS)
    {
      ghost var was := cbuf[..cpend];
      var digit;
      ghost var fpv1 := fpv;
      digit, fpv := TimesTen(fpv);
      cbuf[cpend] := digit;
      cpend := cpend + 1;
      assert cbuf[..cpend] == was + [digit];
      NextDigit(was, digit, fpv1, fpv, lfp, cpend - 1 - INT_DIGITS);
      dec := dec - 1;
    }
  }

  lemma NextDigit(s: seq<int>, digit: int, fpv: int, rest: int, lfp: nat, j: nat)
    requires Num(s) * TWO32 + fpv == lfp * Pow10(j) && digit * TWO32 + rest == 10 * fpv
    ensures Num(s + [digit]) * TWO32 + rest == lfp * Pow10(j + 1)
  {
    assert (s + [digit])[..|s|] == s;
    assert lfp * Pow10(j + 1) == 10 * (lfp * Pow10(j));
  }

  /** One step of the rounding: add to a digit; `carry` tells whether to go on. */
  method CarryOne(cbuf: array<int>, tp: nat) returns (carry: bool)
    requires tp < cbuf.Length
    modifies cbuf
    ensures carry == (old(cbuf[tp]) == 9)
    ensures cbuf[..] == old(cbuf[..])[tp := if carry then 0 else old(cbuf[tp]) + 1]
  {
    cbuf[tp] := cbuf[tp] + 1;
    carry := cbuf[tp] == 10;
    if carry {
      cbuf[tp] := 0;
    }
  }

  lemma IncStep(was: seq<int>, tp: nat, tail: seq<int>)
    requires tp < |was|
    ensures was[tp] == 9 ==> Inc(was[..tp + 1]) + tail == Inc(was[..tp]) + ([0] + tail)
    ensures was[tp] != 9 ==> Inc(was[..tp + 1]) + tail == was[..tp] + [was[tp] + 1] + tail
  {
    assert was[..tp + 1][..tp] == was[..tp];
  }

  /** The carry of the rounding, from the right. */
  method Carry(cbuf: array<int>, cpend: nat, up: bool) returns (tp: nat)
    requires cpend <= cbuf.Length
    modifies cbuf
    ensures tp <= cpend && cbuf[..tp] == old(cbuf[..tp])
    ensures cbuf[..cpend] == if up then Inc(old(cbuf[..cpend])) else old(cbuf[..cpend])
  {
    ghost var was := cbuf[..cpend];
    tp := cpend;
    if up {
      var carry := true;
      ghost var tail: seq<int> := [];
      assert was[..tp] == was;
      while carry && tp > 0
        invariant tp + |tail| == cpend && (carry ==> cbuf[..cpend] == was[..tp] + tail && Inc(was[..tp]) + tail == Inc(was))
        invariant !carry ==> cbuf[..cpend] == was[..tp] + tail == Inc(was)
        decreases tp
      {
        tp := tp - 1;
        IncStep(was, tp, tail);
        assert cbuf[tp] == cbuf[..cpend][tp] == was[tp];
        carry := CarryOne(cbuf, tp);
        tail := [if carry then 0 else was[tp] + 1] + tail;
        assert cbuf[..cpend] == was[..tp] + tail;
      }
      assert cbuf[..tp] == cbuf[..cpend][..tp];
    }
  }

  /** Skip leading zeros left of the point, but for the last digit there. */
  method SkipZeros(cbuf: array<int>, cp0: nat, cpdec: nat) returns (cp: nat)
    requires cp0 <= INT_DIGITS <= cpdec <= cbuf.Length && Zeros(cbuf[..cp0])
    ensures cp < cpdec && cbuf[cp..cpdec] == Strip(cbuf[..cpdec])
  {
    cp := cp0;
    while cp < cpdec && cbuf[cp] == 0
      invariant cp <= cpdec && Zeros(cbuf[..cp])
    {
      cp := cp + 1;
    }
    if cp >= cpdec {
      cp := cpdec - 1;
    }
    StripAt(cbuf[..cpdec], cp);
  }

  /** The characters from a position on, with the point before position `cpdec`. */
  function Text(s: seq<int>, cp: nat, cpdec: nat): string
    requires Digits(s) && cp <= |s|
    decreases |s| - cp
  {
    if cp == |s| then ""
    else (if cp == cpdec then "." else "") + ['0' + s[cp] as char] + Text(s, cp + 1, cpdec)
  }

  lemma CharsCons(s: seq<int>, a: nat, b: nat)
    requires Digits(s) && a < b <= |s|
    ensures Chars(s[a..b]) == ['0' + s[a] as char] + Chars(s[a + 1..b])
  {
  }

  /** Past the point there are only digits. */
  lemma {:induction false} TextPastPoint(s: seq<int>, cp: nat, cpdec: nat)
    requires Digits(s) && cpdec < cp <= |s|
    ensures Text(s, cp, cpdec) == Chars(s[cp..|s|])
    decreases |s| - cp
  {
    if cp < |s| {
      TextPastPoint(s, cp + 1, cpdec);
      CharsCons(s, cp, |s|);
    }
  }

  lemma TextAtPoint(s: seq<int>, cpdec: nat)
    requires Digits(s) && cpdec <= |s|
    ensures Text(s, cpdec, cpdec) == if cpdec < |s| then "." + Chars(s[cpdec..|s|]) else ""
  {
    if cpdec < |s| {
      TextPastPoint(s, cpdec + 1, cpdec);
      CharsCons(s, cpdec, |s|);
    }
  }

  lemma {:induction false} TextIs(s: seq<int>, cp: nat, cpdec: nat)
    requires Digits(s) && cp <= cpdec <= |s|
    ensures Text(s, cp, cpdec) == Chars(s[cp..cpdec]) + Text(s, cpdec, cpdec)
    decreases cpdec - cp
  {
    if cp < cpdec {
      TextIs(s, cp + 1, cpdec);
      CharsCons(s, cp, cpdec);
    }
  }

  lemma TextOfParts(s: seq<int>, cp: nat, cpdec: nat, high: seq<int>, low: seq<int>)
    requires Digits(s) && cp <= cpdec <= |s| && high == s[cp..cpdec] && low == s[cpdec..]
    ensures Digits(high) && Digits(low)
    ensures Text(s, cp, cpdec) == Chars(high) + (if |low| > 0 then "." + Chars(low) else "")
  {
    TextIs(s, cp, cpdec);
    TextAtPoint(s, cpdec);
  }

  /** Digits split at the point, written out, are the number in decimal notation. */
  lemma TextIsFormat(s: seq<int>, cp: nat, cpdec: nat, n: nat, places: nat, neg: bool)
    requires 0 < cpdec && |s| == cpdec + places && cp < cpdec && s == Fixed(n, cpdec + places) && n < Pow10(cpdec + places)
    requires s[cp..cpdec] == Strip(s[..cpdec])
    ensures (if neg then "-" else "") + Text(s, cp, cpdec) == Format(neg, n, places)
  {
    SplitAtPoint(n, cpdec, places);
    TextOfParts(s, cp, cpdec, Shortest(High(n, places)), Fixed(n, places));
    FormatOf(neg, n, places, Shortest(High(n, places)), Fixed(n, places));
  }

  lemma FormatOf(neg: bool, n: nat, places: nat, high: seq<int>, low: seq<int>)
    requires high == Shortest(High(n, places)) && low == Fixed(n, places)
    ensures Format(neg, n, places) ==
            (if neg then "-" else "") + (Chars(high) + (if |low| > 0 then "." + Chars(low) else ""))
  {
  }

  /** The loop that writes the characters. */
  method Emit(cbuf: array<int>, cp0: nat, cpdec: nat, cpend: nat, neg: bool) returns (buf: string)
    requires cp0 < cpdec <= cpend <= cbuf.Length && Digits(cbuf[..cpend])
    ensures buf == (if neg then "-" else "") + Text(cbuf[..cpend], cp0, cpdec)
  {
    buf := if neg then "-" else "";
    var cp := cp0;
    while cp < cpend
      invariant cp0 <= cp <= cpend
      invariant buf + Text(cbuf[..cpend], cp, cpdec) == (if neg then "-" else "") + Text(cbuf[..cpend], cp0, cpdec)
    {
      assert cbuf[cp] == cbuf[..cpend][cp];
      if cp == cpdec {
        buf := buf + ".";
      }
      buf := buf + ['0' + cbuf[cp] as char];
      cp := cp + 1;
    }
  }

  // ----- rounding

  lemma CarryFits(was: seq<int>, fpv: int, lfp: nat, d: nat)
    requires Digits(was) && |was| == INT_DIGITS + d && lfp < TWO64 && 0 <= fpv < TWO32
    requires Num(was) * TWO32 + fpv == lfp * Pow10(d)
    ensures Num(was) + 1 < Pow10(INT_DIGITS + d)
  {
    var p := Pow10(d);
    assert lfp * p < TWO64 * p;
    assert Num(was) < TWO32 * p;
    PowAdd(INT_DIGITS, d);
    assert Pow10(5) == 100000;
    PowAdd(5, 5);
  }

  /** What the buffer holds after the rounding. */
  lemma RoundedDigits(was: seq<int>, fpv: int, lfp: nat, d: nat)
    requires Digits(was) && |was| == INT_DIGITS + d && lfp < TWO64 && 0 <= fpv < TWO32
    requires Num(was) * TWO32 + fpv == lfp * Pow10(d)
    ensures var s := if fpv >= TWO31 then Inc(was) else was; Digits(s) && s == Fixed(Rounded(lfp, d), |was|)
    ensures Rounded(lfp, d) < Pow10(|was|)
  {
    var s := if fpv >= TWO31 then Inc(was) else was;
    CarryFits(was, fpv, lfp, d);
    if fpv >= TWO31 { IncAddsOne(was); }
    FixedOfNum(s);
    HalfUp(Num(was), fpv);
  }

  lemma HalfUp(n: int, fpv: int)
    requires 0 <= fpv < TWO32
    ensures (n * TWO32 + fpv + TWO31) / TWO32 == if fpv >= TWO31 then n + 1 else n
  {
  }

  /** Zeros after an exact fraction leave it exact. */
  lemma {:induction false} ExactTail(s: seq<int>, k: nat, lfp: nat, d: nat)
    requires INT_DIGITS <= k <= INT_DIGITS + d <= |s| && Zeros(s[k..])
    requires Num(s[..k]) * TWO32 == lfp * Pow10(k - INT_DIGITS)
    ensures Num(s[..INT_DIGITS + d]) * TWO32 == lfp * Pow10(d)
    decreases INT_DIGITS + d - k
  {
    if k < INT_DIGITS + d {
      assert s[k] == s[k..][0] && s[..k + 1] == s[..k] + [0];
      NextDigit(s[..k], 0, 0, 0, lfp, k - INT_DIGITS);
      assert Zeros(s[k + 1..]) by { assert s[k + 1..] == s[k..][1..]; }
      ExactTail(s, k + 1, lfp, d);
    }
  }

  // ----- all together

  /** Both parts of the number, unrounded, with what is left of the fraction. */
  method Unrounded(cbuf: array<int>, lfp: nat, d: nat) returns (cp: nat, cpend: nat, fpv: int)
    requires cbuf.Length == BUF_SIZE && Zeros(cbuf[..]) && lfp < TWO64 && INT_DIGITS + d <= BUF_SIZE
    modifies cbuf
    ensures cp <= INT_DIGITS && INT_DIGITS <= cpend <= INT_DIGITS + d && 0 <= fpv < TWO32
    ensures cpend < INT_DIGITS + d ==> fpv == 0
    ensures Zeros(cbuf[..cp]) && Digits(cbuf[..])
    ensures Num(cbuf[..INT_DIGITS + d]) * TWO32 + fpv == lfp * Pow10(d)
  {
    cp := IntPart(cbuf, lfp / TWO32);
    assert Pow10(5) == 100000;
    PowAdd(5, 5);
    NumOfFixed(lfp / TWO32, INT_DIGITS);
    assert cbuf[..] == cbuf[..INT_DIGITS] + cbuf[INT_DIGITS..];
    ghost var whole := cbuf[..INT_DIGITS];
    assert Zeros(whole[..cp]) by { assert whole[..cp] == cbuf[..cp]; }
    cpend, fpv := FracPart(cbuf, lfp, lfp % TWO32, d);
    assert cbuf[..cp] == whole[..cp] by { assert cbuf[..INT_DIGITS] == whole; }
    if cpend < INT_DIGITS + d {
      ExactTail(cbuf[..], cpend, lfp, d);
      assert cbuf[..][..INT_DIGITS + d] == cbuf[..INT_DIGITS + d];
    }
  }

  /** Round by what is left of the fraction; `cp` keeps only zeros before it. */
  method Round(cbuf: array<int>, cp0: nat, cpend0: nat, fpv: int, end: nat) returns (cp: nat, cpend: nat)
    requires cbuf.Length == BUF_SIZE && cp0 <= INT_DIGITS <= cpend0 <= end <= BUF_SIZE && Zeros(cbuf[..cp0])
    requires cpend0 < end ==> fpv == 0
    modifies cbuf
    ensures cp <= INT_DIGITS && cpend == end && Zeros(cbuf[..cp])
    ensures cbuf[..end] == if fpv >= TWO31 then Inc(old(cbuf[..end])) else old(cbuf[..end])
  {
    cp, cpend := cp0, cpend0;
    if cpend < end {
      cpend := end;
    } else {
      ghost var lead := cbuf[..cp];
      var tp := Carry(cbuf, cpend, fpv >= TWO31);
      if tp < cp {
        assert cbuf[..tp] == lead[..tp];
        cp := tp;
      } else {
        assert cbuf[..cp] == cbuf[..tp][..cp] == lead;
      }
    }
  }

  /** The buffer holds the digits of `n`, all of them before `cpend`. */
  ghost predicate HoldsDigits(cbuf: array<int>, cpend: nat, n: nat)
    reads cbuf
  {
    cpend <= cbuf.Length && cbuf[..cpend] == Fixed(n, cpend) && n < Pow10(cpend)
  }

  /** The digits of the rounded number. */
  method Convert(cbuf: array<int>, lfp: nat, d: nat) returns (cp: nat, cpend: nat)
    requires cbuf.Length == BUF_SIZE && Zeros(cbuf[..]) && lfp < TWO64 && INT_DIGITS + d <= BUF_SIZE
    modifies cbuf
    ensures cp <= INT_DIGITS && cpend == INT_DIGITS + d && Zeros(cbuf[..cp])
    ensures HoldsDigits(cbuf, cpend, Rounded(lfp, d))
  {
    var fpv;
    cp, cpend, fpv := Unrounded(cbuf, lfp, d);
    RoundedDigits(cbuf[..INT_DIGITS + d], fpv, lfp, d);
    cp, cpend := Round(cbuf, cp, cpend, fpv, INT_DIGITS + d);
  }

  /** From the digits to the text. */
  method Output(cbuf: array<int>, cp0: nat, cpdec: nat, cpend: nat, neg: bool) returns (buf: string, ghost cp: nat)
    requires cp0 <= INT_DIGITS <= cpdec <= cpend <= cbuf.Length && Zeros(cbuf[..cp0]) && Digits(cbuf[..cpend])
    ensures cp < cpdec && cbuf[..cpend][cp..cpdec] == Strip(cbuf[..cpend][..cpdec])
    ensures buf == (if neg then "-" else "") + Text(cbuf[..cpend], cp, cpdec)
  {
    var first := SkipZeros(cbuf, cp0, cpdec);
    cp := first;
    assert cbuf[..cpend][..cpdec] == cbuf[..cpdec] && cbuf[..cpend][cp..cpdec] == cbuf[cp..cpdec];
    buf := Emit(cbuf, first, cpdec, cpend, neg);
  }

  /** dolfptoa: the number rounded half up to the places asked for, at most 14, in decimal. */
  method Dolfptoa(lfp: nat, neg: bool, ndec: int, msec: bool) returns (buf: string)
    requires lfp < TWO64
    ensures var d := Places(ndec, msec); buf == Format(neg, Rounded(lfp, d), if msec then d - 3 else d)
  {
    var cbuf := new int[BUF_SIZE](i => 0);
    var d := Places(ndec, msec);
    var cp, cpend := Convert(cbuf, lfp, d);
    ghost var s := cbuf[..cpend];
    var cpdec := if msec then INT_DIGITS + 3 else INT_DIGITS;
    ghost var at;
    buf, at := Output(cbuf, cp, cpdec, cpend, neg);
    TextIsFormat(s, at, cpdec, Rounded(lfp, d), if msec then d - 3 else d, neg);
  }

  /** The size of a two's complement number. */
  function Magnitude(lfp: int): nat { if I64(lfp) < 0 then -I64(lfp) else I64(lfp) }

  lemma MagnitudeIs(lfp: int)
    requires 0 <= lfp < TWO64
    ensures lfp / TWO32 >= TWO31 <==> I64(lfp) < 0
    ensures Magnitude(lfp) == if I64(lfp) < 0 then U64(-lfp) else lfp
  {
  }

  /** mfptoa (`msec` false) and mfptoms (`msec` true): sign and size. */
  method Mfpto(lfp: nat, ndec: int, msec: bool) returns (buf: string)
    requires lfp < TWO64
    ensures var d := Places(ndec, msec);
            buf == Format(I64(lfp) < 0, Rounded(Magnitude(lfp), d), if msec then d - 3 else d)
  {
    MagnitudeIs(lfp);
    var isneg := lfp / TWO32 >= TWO31;
    var v: int := lfp;
    if isneg {
      v := U64(-v);
    }
    buf := Dolfptoa(v, isneg, ndec, msec);
  }
}
