/** What holds of the tokens in every run of the tokenizer, whatever the text. */
module JsmnNesting {
  import opened Jsmn

  /** A token lies where it says: brackets and quotes match its kind. */
  ghost predicate Anchored(js: string, pos: nat, t: Token) {
    match t.kind
    case Object => 0 <= t.start < pos <= |js| && js[t.start] == '{' &&
                   (t.end == -1 || (t.start + 1 < t.end <= pos && js[t.end - 1] == '}'))
    case Array => 0 <= t.start < pos <= |js| && js[t.start] == '[' &&
                  (t.end == -1 || (t.start + 1 < t.end <= pos && js[t.end - 1] == ']'))
    case String => 0 < t.start <= t.end < pos <= |js| && js[t.start - 1] == '\"' && js[t.end] == '\"'
    case Primitive => 0 <= t.start < t.end <= pos <= |js| && !IsSpecial(js[t.start])
    case Undefined => false
  }

  /** `b` starts after `a`; once `a` is closed, `b` is either wholly inside it or wholly after it. */
  ghost predicate NestedOrAfter(a: Token, b: Token) {
    a.start < b.start &&
    (a.end != -1 ==> a.end <= b.start || (b.end != -1 && b.end < a.end))
  }

  ghost predicate Nested(js: string, s: State) {
    s.pos <= |js| && WellFormed(s) &&
    (forall i :: 0 <= i < |s.toks| ==> Anchored(js, s.pos, s.toks[i])) &&
    (forall i, j :: 0 <= i < j < |s.toks| ==> NestedOrAfter(s.toks[i], s.toks[j]))
  }

  /** Counting a child moves no token. */
  lemma BumpKeepsNesting(js: string, s: State)
    requires Nested(js, s)
    ensures Nested(js, s.(toks := Bump(s.toks, s.sup)))
  {
    var b := Bump(s.toks, s.sup);
    assert forall i :: 0 <= i < |b| ==> b[i] == s.toks[i].(size := b[i].size);
    forall i | 0 <= i < |b| ensures Anchored(js, s.pos, b[i]) {
      assert Anchored(js, s.pos, s.toks[i]);
    }
    forall i, j | 0 <= i < j < |b| ensures NestedOrAfter(b[i], b[j]) {
      assert NestedOrAfter(s.toks[i], s.toks[j]);
    }
  }

  /** A new token that starts at or after the position comes after all others. */
  lemma AppendKeepsNesting(js: string, s: State, t: Token, next: nat, sup: int)
    requires Nested(js, s) && s.pos <= t.start && s.pos <= next <= |js| && Anchored(js, next, t)
    requires -1 <= sup <= |s.toks|
    ensures Nested(js, State(next, s.toks + [t], sup))
  {
    var toks := s.toks + [t];
    forall i | 0 <= i < |toks| ensures Anchored(js, next, toks[i]) {
      assert i < |s.toks| ==> Anchored(js, s.pos, s.toks[i]);
    }
    forall i, j | 0 <= i < j < |toks| ensures NestedOrAfter(toks[i], toks[j]) {
      assert Anchored(js, s.pos, s.toks[i]);
      assert j < |s.toks| ==> NestedOrAfter(s.toks[i], s.toks[j]);
    }
  }

  lemma CloseKeepsNesting(js: string, s: State)
    requires Nested(js, s) && s.pos < |js| && (js[s.pos] == '}' || js[s.pos] == ']')
    requires StepClose(js, s).Next?
    ensures Nested(js, StepClose(js, s).s)
  {
    var i := LastOpen(s.toks, |s.toks|);
    var t := StepClose(js, s).s;
    assert s.toks[i].start < s.pos;
    forall a, b | 0 <= a < b < |t.toks| ensures NestedOrAfter(t.toks[a], t.toks[b]) {
      assert NestedOrAfter(s.toks[a], s.toks[b]);
      assert Anchored(js, s.pos, s.toks[b]);
    }
  }

  lemma StepKeepsNesting(js: string, cap: nat, s: State)
    requires Nested(js, s) && !AtEnd(js, s.pos) && Step(js, cap, s).Next?
    ensures Nested(js, Step(js, cap, s).s)
  {
    var c := js[s.pos];
    var t := Step(js, cap, s).s;
    if |t.toks| > |s.toks| {
      BumpKeepsNesting(js, s);
      AppendKeepsNesting(js, s.(toks := Bump(s.toks, s.sup)), t.toks[|s.toks|], t.pos, t.sup);
    } else if c == '}' || c == ']' {
      CloseKeepsNesting(js, s);
    } else {
      assert forall i :: 0 <= i < |s.toks| ==> Anchored(js, s.pos, s.toks[i]);
    }
  }

  /** Every state a run passes through is nested; after a successful run every
      token is closed, so that any two tokens are disjoint or one strictly inside
      the other, and there are as many as the run returned. */
  lemma {:induction false} RunIsNested(js: string, cap: nat, s: State)
    requires Nested(js, s)
    ensures var r := Run(js, cap, s);
            Nested(js, r.1) && (|s.toks| <= cap ==> |r.1.toks| <= cap) &&
            (r.0.Count? ==> r.0.n == |r.1.toks| && forall i :: 0 <= i < |r.1.toks| ==> r.1.toks[i].end != -1)
    decreases |js| - s.pos
  {
    if AtEnd(js, s.pos) {
      assert forall i :: 0 <= i < |s.toks| ==> Anchored(js, s.pos, s.toks[i]);
    } else if Step(js, cap, s).Next? {
      StepKeepsNesting(js, cap, s);
      RunIsNested(js, cap, Step(js, cap, s).s);
    }
  }

  // ----- conservation of sizes

  function SizeSum(toks: seq<Token>): int {
    if toks == [] then 0 else SizeSum(toks[..|toks| - 1]) + toks[|toks| - 1].size
  }

  lemma {:induction false} SizeSumUpdate(toks: seq<Token>, i: nat, t: Token)
    requires i < |toks|
    ensures SizeSum(toks[i := t]) == SizeSum(toks) - toks[i].size + t.size
  {
    var n := |toks| - 1;
    if i < n {
      assert toks[i := t][..n] == toks[..n][i := t];
      SizeSumUpdate(toks[..n], i, t);
    } else {
      assert toks[i := t][..n] == toks[..n];
    }
  }

  lemma SizeSumAppend(toks: seq<Token>, t: Token)
    ensures SizeSum(toks + [t]) == SizeSum(toks) + t.size
  {
    assert (toks + [t])[..|toks|] == toks;
  }

  /** The tokens a run creates while there is no superior token. */
  function Orphans(js: string, cap: nat, s: State): (n: nat)
    requires WellFormed(s)
    decreases |js| - s.pos
  {
    if AtEnd(js, s.pos) || Step(js, cap, s).Stop? then 0
    else
      var t := Step(js, cap, s).s;
      (if |t.toks| > |s.toks| && s.sup == -1 then 1 else 0) + Orphans(js, cap, t)
  }

  lemma StepCountsChildren(js: string, cap: nat, s: State)
    requires WellFormed(s) && !AtEnd(js, s.pos) && Step(js, cap, s).Next?
    ensures var t := Step(js, cap, s).s;
            SizeSum(t.toks) - SizeSum(s.toks) ==
            if |t.toks| > |s.toks| && s.sup != -1 then 1 else 0
    ensures |Step(js, cap, s).s.toks| <= |s.toks| + 1
  {
    var t := Step(js, cap, s).s;
    if |t.toks| > |s.toks| {
      assert t.toks == Bump(s.toks, s.sup) + [t.toks[|s.toks|]] && t.toks[|s.toks|].size == 0;
      NewChild(s, t.toks[|s.toks|]);
    } else if js[s.pos] == '}' || js[s.pos] == ']' {
      var i := LastOpen(s.toks, |s.toks|);
      SizeSumUpdate(s.toks, i, s.toks[i].(end := s.pos + 1));
    }
  }

  lemma NewChild(s: State, tok: Token)
    requires WellFormed(s) && tok.size == 0
    ensures SizeSum(Bump(s.toks, s.sup) + [tok]) - SizeSum(s.toks) == if s.sup != -1 then 1 else 0
  {
    if s.sup != -1 {
      SizeSumUpdate(s.toks, s.sup, s.toks[s.sup].(size := s.toks[s.sup].size + 1));
    }
    SizeSumAppend(Bump(s.toks, s.sup), tok);
  }

  /** The sizes a run adds up to are the tokens it created, less those created
      without a superior token. */
  lemma {:induction false} SizesAreConserved(js: string, cap: nat, s: State)
    requires WellFormed(s)
    ensures var t := Run(js, cap, s).1;
            SizeSum(t.toks) - SizeSum(s.toks) == |t.toks| - |s.toks| - Orphans(js, cap, s)
    decreases |js| - s.pos
  {
    if !AtEnd(js, s.pos) && Step(js, cap, s).Next? {
      StepCountsChildren(js, cap, s);
      SizesAreConserved(js, cap, Step(js, cap, s).s);
    }
  }
}
