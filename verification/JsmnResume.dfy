/** Calling the tokenizer again, after it ran out of tokens or after a pass that only counted. */
module JsmnResume {
  import opened Jsmn

  /** Calls with the capacities in turn, going on only after "out of tokens". */
  function RunAll(js: string, caps: seq<nat>, s: State): (r: (Outcome, State))
    requires WellFormed(s) && caps != []
    ensures WellFormed(r.1)
    decreases |caps|
  {
    var r := Run(js, caps[0], s);
    if r.0 == Fail(NoMem) && |caps| > 1 then RunAll(js, caps[1..], r.1) else r
  }

  /** More room changes nothing, unless the call ran out of tokens. */
  lemma {:induction false} MoreRoom(js: string, cap: nat, more: nat, s: State)
    requires WellFormed(s) && cap <= more
    ensures Run(js, cap, s).0 != Fail(NoMem) ==> Run(js, more, s) == Run(js, cap, s)
    ensures Run(js, cap, s).0 == Fail(NoMem) ==> Run(js, more, Run(js, cap, s).1) == Run(js, more, s)
    decreases |js| - s.pos
  {
    if !AtEnd(js, s.pos) && Step(js, cap, s).Next? {
      assert Step(js, more, s) == Step(js, cap, s);
      MoreRoom(js, cap, more, Step(js, cap, s).s);
    }
  }

  /** Any series of "out of tokens" returns, each followed by a call with no less
      room, ends as one call with the final room does. */
  lemma {:induction false} GrowingCallsAreOneCall(js: string, caps: seq<nat>, s: State)
    requires WellFormed(s) && caps != []
    requires forall i, j :: 0 <= i < j < |caps| ==> caps[i] <= caps[j]
    ensures RunAll(js, caps, s) == Run(js, caps[|caps| - 1], s)
    decreases |caps|
  {
    MoreRoom(js, caps[0], caps[|caps| - 1], s);
    if |caps| > 1 && Run(js, caps[0], s).0 == Fail(NoMem) {
      GrowingCallsAreOneCall(js, caps[1..], Run(js, caps[0], s).1);
    }
  }

  /** Each new token takes at least one character, and a call never goes over its room. */
  lemma {:induction false} RoomUsed(js: string, cap: nat, s: State)
    requires WellFormed(s) && s.pos <= |js|
    ensures var t := Run(js, cap, s).1;
            |s.toks| <= |t.toks| && |t.toks| - |s.toks| <= t.pos - s.pos &&
            s.pos <= t.pos <= |js| &&
            (|s.toks| <= cap ==> |t.toks| <= cap) &&
            (Run(js, cap, s).0 == Fail(NoMem) ==> cap <= |t.toks| && t.pos < |js|)
    decreases |js| - s.pos
  {
    if !AtEnd(js, s.pos) && Step(js, cap, s).Next? {
      RoomUsed(js, cap, Step(js, cap, s).s);
    }
  }

  /** How many tokens a call has to allocate in the end, when room is no concern. */
  function Needed(js: string, s: State): (n: nat)
    requires WellFormed(s)
  {
    |Run(js, |s.toks| + |js|, s).1.toks|
  }

  /** A call runs out of tokens exactly when it has less room than the text needs. */
  lemma OutOfTokensIff(js: string, cap: nat, s: State)
    requires WellFormed(s) && s.pos <= |js| && |s.toks| <= cap
    ensures Run(js, cap, s).0 == Fail(NoMem) <==> cap < Needed(js, s)
  {
    var big := |s.toks| + |js|;
    RoomUsed(js, cap, s);
    RoomUsed(js, big, s);
    if cap > big {
      MoreRoom(js, big, cap, s);
    } else {
      MoreRoom(js, cap, big, s);
      if Run(js, cap, s).0 == Fail(NoMem) {
        StepsAfterNoMem(js, cap, big, Run(js, cap, s).1, s);
      }
    }
  }

  /** The call that got stuck for lack of room allocates once it has more. */
  lemma {:induction false} StepsAfterNoMem(js: string, cap: nat, more: nat, t: State, s: State)
    requires WellFormed(s) && s.pos <= |js| && Run(js, cap, s) == (Fail(NoMem), t)
    requires |s.toks| <= cap <= more
    requires Run(js, more, s).0 != Fail(NoMem)
    ensures cap < |Run(js, more, s).1.toks|
    decreases |js| - s.pos
  {
    match Step(js, cap, s)
    case Next(u) =>
      assert Step(js, more, s) == Next(u);
      StepsAfterNoMem(js, cap, more, t, u);
    case Stop(_) =>
      if Step(js, more, s).Next? {
        RoomUsed(js, more, Step(js, more, s).s);
      }
  }

  /** A pass without tokens returns the number of tokens a successful pass uses. */
  lemma {:induction false} CountingPass(js: string, cap: nat, s: State)
    requires WellFormed(s)
    ensures Run(js, cap, s).0.Count? ==>
              Run(js, cap, s).0 == Count(|Run(js, cap, s).1.toks|) &&
              CountRun(js, s.pos, |s.toks|).0 == Run(js, cap, s).0
    decreases |js| - s.pos
  {
    if !AtEnd(js, s.pos) && Step(js, cap, s).Next? {
      CountingPass(js, cap, Step(js, cap, s).s);
    }
  }

  /** Room for as many tokens as the counting pass returned is always enough. */
  lemma {:induction false} CountedRoomSuffices(js: string, cap: nat, s: State)
    requires WellFormed(s)
    requires CountRun(js, s.pos, |s.toks|).0.Count? && CountRun(js, s.pos, |s.toks|).0.n <= cap
    ensures Run(js, cap, s).0 != Fail(NoMem)
    decreases |js| - s.pos
  {
    CountGrows(js, s.pos, |s.toks|);
    if !AtEnd(js, s.pos) && Step(js, cap, s).Next? {
      CountedRoomSuffices(js, cap, Step(js, cap, s).s);
    } else if !AtEnd(js, s.pos) && Step(js, cap, s) == Stop(NoMem) {
      var c := js[s.pos];
      if c == '\"' { CountGrows(js, ScanString(js, s.pos + 1).at + 1, |s.toks| + 1); }
      else if c == '{' || c == '[' { CountGrows(js, s.pos + 1, |s.toks| + 1); }
      else { CountGrows(js, ScanPrimitive(js, s.pos).at, |s.toks| + 1); }
      assert false;
    }
  }

  lemma {:induction false} CountGrows(js: string, pos: nat, count: nat)
    ensures CountRun(js, pos, count).0.Count? ==> count <= CountRun(js, pos, count).0.n
    decreases |js| - pos
  {
    if !AtEnd(js, pos) {
      var c := js[pos];
      if c == '\"' {
        match ScanString(js, pos + 1)
        case Found(e) => CountGrows(js, e + 1, count + 1);
        case _ =>
      } else if c == '{' || c == '[' {
        CountGrows(js, pos + 1, count + 1);
      } else if IsDelimiter(c) {
        CountGrows(js, pos + 1, count);
      } else {
        match ScanPrimitive(js, pos)
        case Found(e) => CountGrows(js, e, count + 1);
        case _ =>
      }
    }
  }
}
