/** What the answers of the tokenizer mean for a text that may still grow: Inval is
    final, and after Part there is a continuation that succeeds. */
module JsmnAnswers {
  import opened Jsmn
  import opened JsmnStream

  // ----- the scanners

  /** A character inside an unquoted value. */
  predicate InPrimitive(js: string, k: nat) {
    !AtEnd(js, k) && !IsDelimiter(js[k]) && 32 as char <= js[k] < 127 as char
  }

  predicate AllInPrimitive(js: string, pos: nat, e: nat) {
    pos <= e && forall k: nat :: pos <= k < e ==> InPrimitive(js, k)
  }

  /** An unquoted value ends at the first delimiter or the end of the text, unless a
      character that is not printable comes first. */
  lemma {:induction false} PrimitiveEnds(js: string, pos: nat)
    requires pos <= |js|
    ensures match ScanPrimitive(js, pos)
            case Found(e) => AllInPrimitive(js, pos, e) && (AtEnd(js, e) || IsDelimiter(js[e]))
            case Bad => exists e: nat :: AllInPrimitive(js, pos, e) && !AtEnd(js, e) && !IsDelimiter(js[e]) && !InPrimitive(js, e)
            case Cut => false
    decreases |js| - pos
  {
    assert AllInPrimitive(js, pos, pos);
    if InPrimitive(js, pos) {
      PrimitiveEnds(js, pos + 1);
      if ScanPrimitive(js, pos).Bad? {
        var e: nat :| AllInPrimitive(js, pos + 1, e) && !AtEnd(js, e) && !IsDelimiter(js[e]) && !InPrimitive(js, e);
        assert AllInPrimitive(js, pos, e);
      }
    }
  }

  // ----- Inval is final

  lemma {:induction false} HexStaysBad(js: string, more: string, pos: nat, n: nat)
    requires js <= more && pos <= |js| && ScanHex(js, pos, n).Bad?
    ensures ScanHex(more, pos, n).Bad?
    decreases n
  {
    if IsHex(js[pos]) { HexStaysBad(js, more, pos + 1, n - 1); }
  }

  lemma {:induction false} StringStaysBad(js: string, more: string, pos: nat)
    requires js <= more && pos <= |js| && ScanString(js, pos).Bad?
    ensures ScanString(more, pos).Bad?
    decreases |js| - pos
  {
    if js[pos] == '\\' && pos + 1 < |js| {
      if IsSimpleEscape(js[pos + 1]) {
        StringStaysBad(js, more, pos + 2);
      } else if js[pos + 1] == 'u' {
        if ScanHex(js, pos + 2, 4).Bad? {
          HexStaysBad(js, more, pos + 2, 4);
        } else {
          HexGrows(js, more, pos + 2, 4);
          StringStaysBad(js, more, ScanHex(js, pos + 2, 4).at);
        }
      }
    } else {
      StringStaysBad(js, more, pos + 1);
    }
  }

  lemma {:induction false} PrimitiveStaysBad(js: string, more: string, pos: nat)
    requires js <= more && pos <= |js| && ScanPrimitive(js, pos).Bad?
    ensures ScanPrimitive(more, pos).Bad?
    decreases |js| - pos
  {
    if InPrimitive(js, pos) { PrimitiveStaysBad(js, more, pos + 1); }
  }

  lemma StepStaysInval(js: string, more: string, cap: nat, s: State)
    requires js <= more && WellFormed(s) && !AtEnd(js, s.pos) && Step(js, cap, s) == Stop(Inval)
    ensures Step(more, cap, s) == Stop(Inval)
  {
    var c := js[s.pos];
    if c == '\"' {
      StringStaysBad(js, more, s.pos + 1);
    } else if !IsSpecial(c) {
      PrimitiveEnds(js, s.pos);
      PrimitiveStaysBad(js, more, s.pos);
    }
  }

  /** A text that was refused is refused however it goes on. */
  lemma {:induction false} InvalIsFinal(js: string, more: string, cap: nat, s: State)
    requires js <= more && WellFormed(s) && Run(js, cap, s).0 == Fail(Inval)
    ensures Run(more, cap, s).0 == Fail(Inval)
    decreases |js| - s.pos
  {
    match Step(js, cap, s)
    case Next(u) =>
      StepGrows(js, more, cap, s);
      assert !CutInPrimitive(js, more, s, u);
      InvalIsFinal(js, more, cap, u);
    case Stop(_) =>
      StepStaysInval(js, more, cap, s);
  }

  // ----- Part can be completed

  predicate OpenContainers(toks: seq<Token>) {
    forall i :: 0 <= i < |toks| && IsOpen(toks[i]) ==> IsContainer(toks[i])
  }

  predicate NoNul(js: string) {
    forall i :: 0 <= i < |js| ==> js[i] != '\0'
  }

  lemma StepKeepsOpenContainers(js: string, cap: nat, s: State)
    requires WellFormed(s) && OpenContainers(s.toks) && !AtEnd(js, s.pos) && Step(js, cap, s).Next?
    ensures OpenContainers(Step(js, cap, s).s.toks)
  {
  }

  /** The bracket that closes a container. */
  function Closer(t: Token): char { if t.kind == Object then '}' else ']' }

  /** The state after the bracket that closes the last open container. */
  function Closed(t: State): State
    requires LastOpen(t.toks, |t.toks|) != -1
  {
    var i := LastOpen(t.toks, |t.toks|);
    var toks := t.toks[i := t.toks[i].(end := t.pos + 1)];
    State(t.pos + 1, toks, LastOpen(toks, i + 1))
  }

  lemma ClosedIs(t: State)
    requires WellFormed(t) && OpenContainers(t.toks) && LastOpen(t.toks, |t.toks|) != -1
    ensures var u := Closed(t);
            WellFormed(u) && OpenContainers(u.toks) && LastOpen(u.toks, |u.toks|) < LastOpen(t.toks, |t.toks|)
  {
    var i, u := LastOpen(t.toks, |t.toks|), Closed(t);
    assert forall j :: i <= j < |u.toks| ==> !IsOpen(u.toks[j]);
  }

  lemma CloseOne(js: string, cap: nat, t: State)
    requires WellFormed(t) && OpenContainers(t.toks) && t.pos < |js| && LastOpen(t.toks, |t.toks|) != -1
    requires js[t.pos] == Closer(t.toks[LastOpen(t.toks, |t.toks|)])
    ensures Run(js, cap, t) == Run(js, cap, Closed(t))
  {
    var i := LastOpen(t.toks, |t.toks|);
    assert IsOpen(t.toks[i]) && IsContainer(t.toks[i]);
    assert Step(js, cap, t) == Next(Closed(t));
  }

  /** Closing brackets for all open containers complete a text that ends between values. */
  lemma {:induction false} CloseAll(js: string, cap: nat, t: State) returns (ext: string)
    requires WellFormed(t) && OpenContainers(t.toks) && t.pos == |js|
    ensures Run(js + ext, cap, t).0.Count?
    ensures LastOpen(t.toks, |t.toks|) != -1 ==> ext != [] && IsDelimiter(ext[0])
    decreases LastOpen(t.toks, |t.toks|) + 1
  {
    var i := LastOpen(t.toks, |t.toks|);
    if i == -1 {
      ext := "";
      assert js + ext == js;
    } else {
      var c := Closer(t.toks[i]);
      ClosedIs(t);
      var rest := CloseAll(js + [c], cap, Closed(t));
      ext := [c] + rest;
      assert js + ext == js + [c] + rest;
      CloseOne(js + ext, cap, t);
    }
  }

  lemma {:induction false} HexCompletes(js: string, more: string, pos: nat, n: nat)
    requires js <= more && pos <= |js| && NoNul(js) && ScanHex(js, pos, n) == Found(|js|)
    requires |more| >= pos + n && forall i :: |js| <= i < pos + n ==> more[i] == '0'
    ensures |js| <= pos + n && ScanHex(more, pos, n) == Found(pos + n)
    decreases n
  {
    if n > 0 {
      if pos < |js| {
        HexCompletes(js, more, pos + 1, n - 1);
      } else {
        ZerosAreHex(more, pos, n);
      }
    }
  }

  lemma {:induction false} ZerosAreHex(more: string, pos: nat, n: nat)
    requires pos + n <= |more| && forall i :: pos <= i < pos + n ==> more[i] == '0'
    ensures ScanHex(more, pos, n) == Found(pos + n)
    decreases n
  {
    if n > 0 { ZerosAreHex(more, pos + 1, n - 1); }
  }

  /** A string that is cut, even in an escape, has a continuation that closes it. */
  lemma {:induction false} CloseString(js: string, pos: nat) returns (ext: string)
    requires pos <= |js| && NoNul(js) && ScanString(js, pos).Cut?
    ensures ext != [] && ScanString(js + ext, pos) == Found(|js + ext| - 1)
    decreases |js| - pos
  {
    if pos == |js| {
      ext := "\"";
    } else if js[pos] == '\\' && pos + 1 < |js| {
      ext := CloseEscape(js, pos);
    } else if js[pos] == '\\' {
      ext := "n\"";
      var more := js + ext;
      assert more[pos] == '\\' && more[pos + 1] == 'n' && more[pos + 2] == '\"';
      assert ScanString(more, pos + 2) == Found(pos + 2);
    } else {
      ext := CloseString(js, pos + 1);
      assert (js + ext)[pos] == js[pos];
    }
  }

  lemma {:induction false} CloseEscape(js: string, pos: nat) returns (ext: string)
    requires pos + 1 < |js| && NoNul(js) && ScanString(js, pos).Cut? && js[pos] == '\\'
    ensures ext != [] && ScanString(js + ext, pos) == Found(|js + ext| - 1)
    decreases |js| - pos, 0
  {
    if IsSimpleEscape(js[pos + 1]) {
      ext := CloseString(js, pos + 2);
      assert (js + ext)[pos] == js[pos] && (js + ext)[pos + 1] == js[pos + 1];
    } else if ScanHex(js, pos + 2, 4).at < |js| {
      ext := CloseString(js, ScanHex(js, pos + 2, 4).at);
      HexGrows(js, js + ext, pos + 2, 4);
      assert (js + ext)[pos] == js[pos] && (js + ext)[pos + 1] == js[pos + 1];
    } else {
      HexLength(js, pos + 2, 4);
      var n := pos + 6 - |js|;
      ext := seq(n, i => '0') + "\"";
      var more := js + ext;
      assert more[pos] == js[pos] && more[pos + 1] == js[pos + 1] && more[pos + 6] == '\"';
      HexCompletes(js, more, pos + 2, 4);
      assert ScanString(more, pos + 6) == Found(pos + 6);
    }
  }

  lemma {:induction false} HexLength(js: string, pos: nat, n: nat)
    requires pos <= |js| && ScanHex(js, pos, n).Found?
    ensures ScanHex(js, pos, n).at <= pos + n
    decreases n
  {
    if n > 0 && !AtEnd(js, pos) { HexLength(js, pos + 1, n - 1); }
  }

  /** A text that was found incomplete has a continuation, and room, with which it is
      read completely. */
  lemma {:induction false} PartCompletes(js: string, cap: nat, s: State) returns (more: string, room: nat)
    requires WellFormed(s) && OpenContainers(s.toks) && s.pos <= |js| && NoNul(js) && Run(js, cap, s).0 == Fail(Part)
    ensures js <= more && cap <= room && Run(more, room, s).0.Count?
    ensures s.pos == |js| ==> |js| < |more| && IsDelimiter(more[|js|])
    decreases |js| - s.pos
  {
    if s.pos == |js| {
      var ext := CloseAll(js, cap, s);
      more, room := js + ext, cap;
    } else {
      match Step(js, cap, s)
      case Next(u) =>
        StepKeepsOpenContainers(js, cap, s);
        more, room := PartCompletes(js, cap, u);
        StepGrows(js, more, cap, s);
        NotCut(js, more, cap, s);
        assert Step(more, room, s) == Step(more, cap, s);
      case Stop(_) =>
        more, room := CutStringCompletes(js, cap, s);
    }
  }

  lemma NotCut(js: string, more: string, cap: nat, s: State)
    requires js <= more && WellFormed(s) && !AtEnd(js, s.pos) && Step(js, cap, s).Next?
    requires Step(js, cap, s).s.pos == |js| ==> |js| < |more| && IsDelimiter(more[|js|])
    ensures !CutInPrimitive(js, more, s, Step(js, cap, s).s)
  {
  }

  lemma CutStringCompletes(js: string, cap: nat, s: State) returns (more: string, room: nat)
    requires WellFormed(s) && OpenContainers(s.toks) && s.pos < |js| && NoNul(js) && Step(js, cap, s) == Stop(Part)
    ensures js <= more && cap <= room && Run(more, room, s).0.Count?
  {
    var ext := CloseString(js, s.pos + 1);
    var js' := js + ext;
    room := if cap <= |s.toks| then |s.toks| + 1 else cap;
    assert js'[s.pos] == '\"';
    var u := Step(js', room, s).s;
    assert u.pos == |js'| && u.toks[|s.toks|].kind == String;
    StepKeepsOpenContainers(js', room, s);
    var rest := CloseAll(js', room, u);
    more := js' + rest;
    StepGrows(js', more, room, s);
    assert Run(more, room, s) == Run(more, room, u);
  }

  // ----- an input for the one case in which a call on a longer text goes wrong

  /** "1" is taken as a complete value, which the text "12" shows to be wrong. */
  lemma CutOneTwo()
    ensures var t := Run("1", 1, Init).1;
            CutInPrimitive("1", "12", Init, t) && Run("12", 1, t) != Run("12", 1, Init)
  {
    assert ScanPrimitive("1", 1) == Found(1);
    assert ScanPrimitive("1", 0) == Found(1);
    var t := State(1, [Token(Primitive, 0, 1, 0)], -1);
    assert Step("1", 1, Init) == Next(t);
    assert Run("1", 1, t).1 == t;
    assert Run("1", 1, Init).1 == t;
    ContinuesIff("1", "12", 1, Init);
  }
}
