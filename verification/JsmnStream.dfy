/** Calling the tokenizer again on a longer text, as when reading from a stream.
    This continues correctly except in one case: the earlier text was cut inside
    an unquoted value, which the earlier call took as complete. */
module JsmnStream {
  import opened Jsmn

  /** The call on `js` from `s` to `t` ended with an unquoted value at the very end
      of `js`, and the longer text `more` goes on with that value. */
  predicate CutInPrimitive(js: string, more: string, s: State, t: State) {
    |s.toks| < |t.toks| && |js| < |more| &&
    var last := t.toks[|t.toks| - 1];
    last.kind == Primitive && last.end == |js| &&
    !AtEnd(more, |js|) && !IsDelimiter(more[|js|])
  }

  lemma {:induction false} HexGrows(js: string, more: string, pos: nat, n: nat)
    requires js <= more && pos <= |js|
    requires ScanHex(js, pos, n).Found? && ScanHex(js, pos, n).at < |js|
    ensures ScanHex(more, pos, n) == ScanHex(js, pos, n)
    decreases n
  {
    if n > 0 && !AtEnd(js, pos) { HexGrows(js, more, pos + 1, n - 1); }
  }

  /** A closing quote once found stays found when the text grows. */
  lemma {:induction false} StringGrows(js: string, more: string, pos: nat)
    requires js <= more && pos <= |js| && ScanString(js, pos).Found?
    ensures ScanString(more, pos) == ScanString(js, pos)
    decreases |js| - pos
  {
    if js[pos] == '\"' {
    } else if js[pos] == '\\' && pos + 1 < |js| {
      if IsSimpleEscape(js[pos + 1]) {
        StringGrows(js, more, pos + 2);
      } else {
        HexGrows(js, more, pos + 2, 4);
        StringGrows(js, more, ScanHex(js, pos + 2, 4).at);
      }
    } else {
      StringGrows(js, more, pos + 1);
    }
  }

  /** An unquoted value that ends before the end of the text, or that the longer
      text does not go on with, is scanned alike in both. */
  lemma {:induction false} PrimitiveGrows(js: string, more: string, pos: nat)
    requires js <= more && pos <= |js| && ScanPrimitive(js, pos).Found?
    ensures ScanPrimitive(more, pos) == ScanPrimitive(js, pos) <==>
            ScanPrimitive(js, pos).at < |js| || AtEnd(more, |js|) || IsDelimiter(more[|js|])
    decreases |js| - pos
  {
    if AtEnd(js, pos) || IsDelimiter(js[pos]) {
    } else {
      PrimitiveGrows(js, more, pos + 1);
    }
  }

  /** One round of the main loop on the longer text. */
  lemma StepGrows(js: string, more: string, cap: nat, s: State)
    requires js <= more && WellFormed(s) && !AtEnd(js, s.pos) && Step(js, cap, s).Next?
    ensures Step(more, cap, s) == Step(js, cap, s) <==> !CutInPrimitive(js, more, s, Step(js, cap, s).s)
  {
    var c := js[s.pos];
    if c == '\"' {
      StringGrows(js, more, s.pos + 1);
    } else if !IsSpecial(c) {
      PrimitiveGrows(js, more, s.pos);
    }
  }

  /** Tokens are never dropped, and the end of a closed token is final. */
  lemma {:induction false} ClosedStaysClosed(js: string, cap: nat, s: State, i: nat)
    requires WellFormed(s) && i < |s.toks| && !IsOpen(s.toks[i])
    ensures var t := Run(js, cap, s).1;
            i < |t.toks| && t.toks[i].end == s.toks[i].end
    decreases |js| - s.pos
  {
    if !AtEnd(js, s.pos) && Step(js, cap, s).Next? {
      ClosedStaysClosed(js, cap, Step(js, cap, s).s, i);
    }
  }

  /** A call on a longer text continues an earlier call exactly when the earlier
      text was not cut inside an unquoted value. */
  lemma {:induction false} ContinuesIff(js: string, more: string, cap: nat, s: State)
    requires js <= more && WellFormed(s) && s.pos <= |js|
    ensures var t := Run(js, cap, s).1;
            Run(more, cap, t) == Run(more, cap, s) <==> !CutInPrimitive(js, more, s, t)
    decreases |js| - s.pos
  {
    if !AtEnd(js, s.pos) && Step(js, cap, s).Next? {
      var u := Step(js, cap, s).s;
      var t := Run(js, cap, s).1;
      StepGrows(js, more, cap, s);
      if CutInPrimitive(js, more, s, u) {
        CutPrimitiveDiffers(js, more, cap, s);
      } else {
        ContinuesIff(js, more, cap, u);
        CutIsInLastStep(js, more, cap, s);
      }
    }
  }

  /** Only the last token a call allocates can be cut. */
  lemma CutIsInLastStep(js: string, more: string, cap: nat, s: State)
    requires js <= more && WellFormed(s) && !AtEnd(js, s.pos) && Step(js, cap, s).Next?
    requires !CutInPrimitive(js, more, s, Step(js, cap, s).s)
    ensures var t := Run(js, cap, s).1;
            CutInPrimitive(js, more, s, t) <==> CutInPrimitive(js, more, Step(js, cap, s).s, t)
  {
    var u := Step(js, cap, s).s;
    StepAdds(js, cap, s);
    TokensGrow(js, cap, u);
    var t := Run(js, cap, u).1;
    if |t.toks| > 0 && |u.toks| == |t.toks| {
      LastLeafStays(js, cap, u);
    }
    CutMoves(js, more, s, u, t);
  }

  lemma StepAdds(js: string, cap: nat, s: State)
    requires WellFormed(s) && !AtEnd(js, s.pos) && Step(js, cap, s).Next?
    ensures |s.toks| <= |Step(js, cap, s).s.toks|
  {
  }

  lemma CutMoves(js: string, more: string, s: State, u: State, t: State)
    requires |s.toks| <= |u.toks| <= |t.toks| && !CutInPrimitive(js, more, s, u)
    requires 0 < |t.toks| == |u.toks| ==>
               var k := |t.toks| - 1;
               t.toks[k].kind == u.toks[k].kind && (t.toks[k].kind == Primitive ==> t.toks[k].end == u.toks[k].end)
    ensures CutInPrimitive(js, more, s, t) <==> CutInPrimitive(js, more, u, t)
  {
  }

  lemma {:induction false} TokensGrow(js: string, cap: nat, s: State)
    requires WellFormed(s)
    ensures |s.toks| <= |Run(js, cap, s).1.toks|
    decreases |js| - s.pos
  {
    if !AtEnd(js, s.pos) && Step(js, cap, s).Next? {
      TokensGrow(js, cap, Step(js, cap, s).s);
    }
  }

  /** While no token is added, the last token keeps its kind and, unless it is a
      container, its end. */
  lemma {:induction false} LastLeafStays(js: string, cap: nat, s: State)
    requires WellFormed(s) && s.toks != [] && |Run(js, cap, s).1.toks| == |s.toks|
    ensures var k := |s.toks| - 1;
            var t := Run(js, cap, s).1;
            t.toks[k].kind == s.toks[k].kind &&
            (t.toks[k].kind == Primitive ==> t.toks[k].end == s.toks[k].end)
    decreases |js| - s.pos
  {
    if !AtEnd(js, s.pos) && Step(js, cap, s).Next? {
      TokensGrow(js, cap, Step(js, cap, s).s);
      LastLeafStays(js, cap, Step(js, cap, s).s);
    }
  }

  /** After a cut, the two calls leave different tokens. */
  lemma CutPrimitiveDiffers(js: string, more: string, cap: nat, s: State)
    requires js <= more && WellFormed(s) && !AtEnd(js, s.pos) && Step(js, cap, s).Next?
    requires CutInPrimitive(js, more, s, Step(js, cap, s).s)
    ensures Run(js, cap, s).1 == Step(js, cap, s).s
    ensures Run(more, cap, Run(js, cap, s).1) != Run(more, cap, s)
  {
    var u := Step(js, cap, s).s;
    var k := |s.toks|;
    assert u.pos == |js| && u.toks[k].kind == Primitive && |u.toks| == k + 1;
    StepGrows(js, more, cap, s);
    ClosedStaysClosed(more, cap, u, k);
    match Step(more, cap, s)
    case Next(v) =>
      assert v.toks[k].end != u.toks[k].end;
      ClosedStaysClosed(more, cap, v, k);
    case Stop(_) =>
  }
}
