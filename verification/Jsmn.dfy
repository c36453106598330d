/** The JSON tokenizer of libjsmn/jsmn.h (default build) as a state machine on
    values: the scanners, one step of the main loop, and a whole call. */
module Jsmn {

  datatype Kind = Undefined | Object | Array | String | Primitive

  /** A token; `end == -1` marks a container whose closing bracket is still to come. */
  datatype Token = Token(kind: Kind, start: int, end: int, size: int)

  /** The parser fields together with the allocated part of the token array,
      so that toknext is `|toks|`. */
  datatype State = State(pos: nat, toks: seq<Token>, sup: int)

  datatype Error = NoMem | Inval | Part

  /** What a call returns: a token count or an error. */
  datatype Outcome = Count(n: nat) | Fail(err: Error)

  datatype Scan = Found(at: nat) | Bad | Cut

  datatype StepResult = Next(s: State) | Stop(err: Error)

  const Init := State(0, [], -1)

  ghost predicate WellFormed(s: State) {
    -1 <= s.sup < |s.toks|
  }

  predicate AtEnd(js: string, pos: nat) {
    pos >= |js| || js[pos] == '\0'
  }

  predicate IsBlank(c: char) {
    c == '\t' || c == '\r' || c == '\n' || c == ' '
  }

  /** The characters that end an unquoted value. */
  predicate IsDelimiter(c: char) {
    IsBlank(c) || c == ':' || c == ',' || c == ']' || c == '}'
  }

  /** The characters that the main loop does not hand to the primitive scanner. */
  predicate IsSpecial(c: char) {
    IsDelimiter(c) || c == '{' || c == '[' || c == '\"'
  }

  predicate IsHex(c: char) {
    '0' <= c <= '9' || 'A' <= c <= 'F' || 'a' <= c <= 'f'
  }

  /** The characters allowed after a backslash, other than 'u'. */
  predicate IsSimpleEscape(c: char) {
    c == '\"' || c == '/' || c == '\\' || c == 'b' || c == 'f' || c == 'r' || c == 'n' || c == 't'
  }

  predicate IsOpen(t: Token) {
    t.start != -1 && t.end == -1
  }

  predicate IsContainer(t: Token) {
    t.kind == Array || t.kind == Object
  }

  /** Where an unquoted value that reaches `pos` ends. */
  function ScanPrimitive(js: string, pos: nat): (r: Scan)
    requires pos <= |js|
    ensures r.Found? ==> pos <= r.at <= |js|
    ensures r == Found(pos) <==> AtEnd(js, pos) || IsDelimiter(js[pos])
    decreases |js| - pos
  {
    if AtEnd(js, pos) || IsDelimiter(js[pos]) then Found(pos)
    else if js[pos] < 32 as char || js[pos] >= 127 as char then Bad
    else ScanPrimitive(js, pos + 1)
  }

  /** Up to `n` hexadecimal digits from `pos` on; stops early at the end of the text. */
  function ScanHex(js: string, pos: nat, n: nat): (r: Scan)
    requires pos <= |js|
    ensures r.Found? ==> pos <= r.at <= |js|
    decreases n
  {
    if n == 0 || AtEnd(js, pos) then Found(pos)
    else if !IsHex(js[pos]) then Bad
    else ScanHex(js, pos + 1, n - 1)
  }

  /** Where the closing quote of a string is, from a position inside it. */
  function ScanString(js: string, pos: nat): (r: Scan)
    requires pos <= |js|
    ensures r.Found? ==> pos <= r.at < |js| && js[r.at] == '\"'
    decreases |js| - pos
  {
    if AtEnd(js, pos) then Cut
    else if js[pos] == '\"' then Found(pos)
    else if js[pos] == '\\' && pos + 1 < |js| then
      if IsSimpleEscape(js[pos + 1]) then ScanString(js, pos + 2)
      else if js[pos + 1] == 'u' then
        var h := ScanHex(js, pos + 2, 4);
        if h.Found? then ScanString(js, h.at) else Bad
      else Bad
    else ScanString(js, pos + 1)
  }

  /** The last open token below index `n`, or -1. */
  function LastOpen(toks: seq<Token>, n: nat): (i: int)
    requires n <= |toks|
    ensures -1 <= i < n
    ensures i >= 0 ==> IsOpen(toks[i])
    ensures forall j :: i < j < n ==> !IsOpen(toks[j])
  {
    if n == 0 then -1
    else if IsOpen(toks[n - 1]) then n - 1
    else LastOpen(toks, n - 1)
  }

  /** The last open object or array below index `n`, or -1. */
  function LastOpenContainer(toks: seq<Token>, n: nat): (i: int)
    requires n <= |toks|
    ensures -1 <= i < n
    ensures i >= 0 ==> IsContainer(toks[i]) && IsOpen(toks[i])
    ensures forall j :: i < j < n ==> !(IsContainer(toks[j]) && IsOpen(toks[j]))
  {
    if n == 0 then -1
    else if IsContainer(toks[n - 1]) && IsOpen(toks[n - 1]) then n - 1
    else LastOpenContainer(toks, n - 1)
  }

  /** Counts one more child of the superior token, if there is one. */
  function Bump(toks: seq<Token>, sup: int): (r: seq<Token>)
    requires -1 <= sup < |toks|
    ensures |r| == |toks|
  {
    if sup == -1 then toks else toks[sup := toks[sup].(size := toks[sup].size + 1)]
  }

  /** '{' and '[': a new open token that becomes the superior one. */
  function StepOpen(js: string, cap: nat, s: State): (r: StepResult)
    requires WellFormed(s) && s.pos < |js|
  {
    if |s.toks| >= cap then Stop(NoMem)
    else
      var kind := if js[s.pos] == '{' then Object else Array;
      Next(State(s.pos + 1, Bump(s.toks, s.sup) + [Token(kind, s.pos, -1, 0)], |s.toks|))
  }

  /** '}' and ']': ends the last open token; the one open before it becomes superior. */
  function StepClose(js: string, s: State): (r: StepResult)
    requires WellFormed(s) && s.pos < |js|
  {
    var kind := if js[s.pos] == '}' then Object else Array;
    var i := LastOpen(s.toks, |s.toks|);
    if i == -1 || s.toks[i].kind != kind then Stop(Inval)
    else
      var toks := s.toks[i := s.toks[i].(end := s.pos + 1)];
      Next(State(s.pos + 1, toks, LastOpen(toks, i + 1)))
  }

  /** A string or primitive from `start` to `end`; scanning goes on at `next`. */
  function StepLeaf(cap: nat, s: State, kind: Kind, start: nat, end: nat, next: nat): (r: StepResult)
    requires WellFormed(s)
  {
    if |s.toks| >= cap then Stop(NoMem)
    else Next(State(next, Bump(s.toks, s.sup) + [Token(kind, start, end, 0)], s.sup))
  }

  /** ',': after a key's value, the enclosing container becomes superior again. */
  function StepComma(s: State): (r: StepResult)
    requires WellFormed(s)
  {
    if s.sup != -1 && !IsContainer(s.toks[s.sup]) then
      var i := LastOpenContainer(s.toks, |s.toks|);
      Next(State(s.pos + 1, s.toks, if i == -1 then s.sup else i))
    else Next(s.(pos := s.pos + 1))
  }

  /** One round of the main loop, with room for `cap` tokens. An error leaves the
      state as it was. */
  function Step(js: string, cap: nat, s: State): (r: StepResult)
    requires WellFormed(s) && !AtEnd(js, s.pos)
    ensures r.Next? ==> WellFormed(r.s) && s.pos < r.s.pos <= |js| && |s.toks| <= |r.s.toks|
  {
    var c := js[s.pos];
    if c == '{' || c == '[' then StepOpen(js, cap, s)
    else if c == '}' || c == ']' then StepClose(js, s)
    else if c == '\"' then
      match ScanString(js, s.pos + 1) {
        case Found(e) => StepLeaf(cap, s, String, s.pos + 1, e, e + 1)
        case Bad => Stop(Inval)
        case Cut => Stop(Part)
      }
    else if IsBlank(c) then Next(s.(pos := s.pos + 1))
    else if c == ':' then Next(State(s.pos + 1, s.toks, |s.toks| - 1))
    else if c == ',' then StepComma(s)
    else
      match ScanPrimitive(js, s.pos) {
        case Found(e) => StepLeaf(cap, s, Primitive, s.pos, e, e)
        case _ => Stop(Inval)
      }
  }

  /** A whole call with a token array of `cap` tokens: what it returns and the state it leaves. */
  function Run(js: string, cap: nat, s: State): (r: (Outcome, State))
    requires WellFormed(s)
    ensures WellFormed(r.1)
    decreases |js| - s.pos
  {
    if AtEnd(js, s.pos) then
      (if LastOpen(s.toks, |s.toks|) == -1 then Count(|s.toks|) else Fail(Part), s)
    else
      match Step(js, cap, s) {
        case Next(t) => Run(js, cap, t)
        case Stop(e) => (Fail(e), s)
      }
  }

  /** A call without a token array: only counts. */
  function CountRun(js: string, pos: nat, count: nat): (r: (Outcome, nat))
    decreases |js| - pos
  {
    if AtEnd(js, pos) then (Count(count), pos)
    else
      var c := js[pos];
      if c == '{' || c == '[' then CountRun(js, pos + 1, count + 1)
      else if c == '\"' then
        match ScanString(js, pos + 1) {
          case Found(e) => CountRun(js, e + 1, count + 1)
          case Bad => (Fail(Inval), pos)
          case Cut => (Fail(Part), pos)
        }
      else if IsDelimiter(c) then CountRun(js, pos + 1, count)
      else
        match ScanPrimitive(js, pos) {
          case Found(e) => CountRun(js, e, count + 1)
          case _ => (Fail(Inval), pos)
        }
  }
}
