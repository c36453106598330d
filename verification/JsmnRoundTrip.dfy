/** JSON texts and the tokenizer: every text of sections 2 to 7 of RFC 8259, with
    any white space, yields exactly the tokens of its value in preorder. */
module JsmnRoundTrip {
  import opened Jsmn
  import opened JsmnResume

  datatype StrChar = Plain(c: char) | Escaped(c: char) | Unicode(hex: string)

  /** A value with the white space that its text may hold between its parts. */
  datatype Value =
    | Prim(text: string)
    | Str(chars: seq<StrChar>)
    | Arr(elems: Elems)
    | Obj(members: Members)

  /** What stands between '[' and ']'. */
  datatype Elems =
    | NoElems(ws: string)
    | LastElem(pre: string, v: Value, post: string)
    | Elem(pre: string, v: Value, post: string, rest: Elems)

  /** What stands between '{' and '}'. */
  datatype Members =
    | NoMembers(ws: string)
    | LastMember(pre: string, key: seq<StrChar>, mid: string, pre2: string, v: Value, post: string)
    | Member(pre: string, key: seq<StrChar>, mid: string, pre2: string, v: Value, post: string, rest: Members)

  // ----- which values are JSON

  predicate Blank(ws: string) {
    forall i :: 0 <= i < |ws| ==> IsBlank(ws[i])
  }

  /** The text of a number, true, false or null; any other run of printable
      characters that does not look like something else is covered too. */
  predicate IsPrimitiveText(t: string) {
    t != [] && !IsSpecial(t[0]) &&
    forall i :: 0 <= i < |t| ==> !IsDelimiter(t[i]) && 32 as char <= t[i] < 127 as char
  }

  predicate IsStrChar(c: StrChar) {
    match c
    case Plain(p) => p != '\"' && p != '\\' && p != '\0'
    case Escaped(e) => IsSimpleEscape(e)
    case Unicode(h) => |h| == 4 && forall i :: 0 <= i < 4 ==> IsHex(h[i])
  }

  predicate IsString(cs: seq<StrChar>) {
    forall i :: 0 <= i < |cs| ==> IsStrChar(cs[i])
  }

  predicate IsJson(v: Value) {
    match v
    case Prim(t) => IsPrimitiveText(t)
    case Str(cs) => IsString(cs)
    case Arr(es) => AreElems(es)
    case Obj(ms) => AreMembers(ms)
  }

  predicate AreElems(es: Elems) {
    match es
    case NoElems(ws) => Blank(ws)
    case LastElem(pre, v, post) => Blank(pre) && IsJson(v) && Blank(post)
    case Elem(pre, v, post, rest) => Blank(pre) && IsJson(v) && Blank(post) && AreElems(rest)
  }

  predicate AreMembers(ms: Members) {
    match ms
    case NoMembers(ws) => Blank(ws)
    case LastMember(pre, key, mid, pre2, v, post) =>
      Blank(pre) && IsString(key) && Blank(mid) && Blank(pre2) && IsJson(v) && Blank(post)
    case Member(pre, key, mid, pre2, v, post, rest) =>
      Blank(pre) && IsString(key) && Blank(mid) && Blank(pre2) && IsJson(v) && Blank(post) && AreMembers(rest)
  }

  // ----- their texts

  function PrintChar(c: StrChar): string {
    match c
    case Plain(p) => [p]
    case Escaped(e) => ['\\', e]
    case Unicode(h) => "\\u" + h
  }

  function PrintChars(cs: seq<StrChar>): string {
    if cs == [] then "" else PrintChar(cs[0]) + PrintChars(cs[1..])
  }

  function PrintString(cs: seq<StrChar>): string {
    "\"" + PrintChars(cs) + "\""
  }

  function Print(v: Value): string {
    match v
    case Prim(t) => t
    case Str(cs) => PrintString(cs)
    case Arr(es) => "[" + PrintElems(es) + "]"
    case Obj(ms) => "{" + PrintMembers(ms) + "}"
  }

  function PrintElems(es: Elems): string {
    match es
    case NoElems(ws) => ws
    case LastElem(pre, v, post) => pre + Print(v) + post
    case Elem(pre, v, post, rest) => pre + Print(v) + post + "," + PrintElems(rest)
  }

  function PrintMembers(ms: Members): string {
    match ms
    case NoMembers(ws) => ws
    case LastMember(pre, key, mid, pre2, v, post) =>
      pre + PrintString(key) + mid + ":" + pre2 + Print(v) + post
    case Member(pre, key, mid, pre2, v, post, rest) =>
      pre + PrintString(key) + mid + ":" + pre2 + Print(v) + post + "," + PrintMembers(rest)
  }

  // ----- their tokens, for a text that starts at offset p

  function StringToken(cs: seq<StrChar>, p: nat, size: nat): Token {
    Token(String, p + 1, p + |PrintString(cs)| - 1, size)
  }

  function Tokens(v: Value, p: nat): seq<Token> {
    match v
    case Prim(t) => [Token(Primitive, p, p + |t|, 0)]
    case Str(cs) => [StringToken(cs, p, 0)]
    case Arr(es) => [Token(Array, p, p + |Print(v)|, ElemCount(es))] + ElemTokens(es, p + 1)
    case Obj(ms) => [Token(Object, p, p + |Print(v)|, MemberCount(ms))] + MemberTokens(ms, p + 1)
  }

  function ElemCount(es: Elems): nat {
    match es
    case NoElems(_) => 0
    case LastElem(_, _, _) => 1
    case Elem(_, _, _, rest) => 1 + ElemCount(rest)
  }

  function MemberCount(ms: Members): nat {
    match ms
    case NoMembers(_) => 0
    case LastMember(_, _, _, _, _, _) => 1
    case Member(_, _, _, _, _, _, rest) => 1 + MemberCount(rest)
  }

  function ElemTokens(es: Elems, p: nat): seq<Token> {
    match es
    case NoElems(_) => []
    case LastElem(pre, v, _) => Tokens(v, p + |pre|)
    case Elem(pre, v, post, rest) =>
      Tokens(v, p + |pre|) + ElemTokens(rest, p + |pre| + |Print(v)| + |post| + 1)
  }

  /** A key is a string token of size one: its value. */
  function MemberTokens(ms: Members, p: nat): seq<Token> {
    match ms
    case NoMembers(_) => []
    case LastMember(pre, key, mid, pre2, v, _) =>
      [StringToken(key, p + |pre|, 1)] + Tokens(v, ValueAt(p, pre, key, mid, pre2))
    case Member(pre, key, mid, pre2, v, post, rest) =>
      var q := ValueAt(p, pre, key, mid, pre2);
      [StringToken(key, p + |pre|, 1)] + Tokens(v, q) + MemberTokens(rest, q + |Print(v)| + |post| + 1)
  }

  function ValueAt(p: nat, pre: string, key: seq<StrChar>, mid: string, pre2: string): nat {
    p + |pre| + |PrintString(key)| + |mid| + 1 + |pre2|
  }

  // ----- texts inside texts

  /** `t` stands at offset `p` of `js`. */
  ghost predicate At(js: string, p: nat, t: string) {
    p + |t| <= |js| && js[p..p + |t|] == t
  }

  lemma AtConcat(js: string, p: nat, a: string, b: string)
    requires At(js, p, a + b)
    ensures At(js, p, a) && At(js, p + |a|, b)
  {
    var t := js[p..p + |a + b|];
    assert js[p..p + |a|] == t[..|a|] == a;
    assert js[p + |a|..p + |a| + |b|] == t[|a|..] == b;
  }

  lemma Associative<T>(a: seq<T>, b: seq<T>, c: seq<T>)
    ensures a + b + c == a + (b + c)
  {
  }

  lemma AtIndex(js: string, p: nat, t: string, i: nat)
    requires At(js, p, t) && i < |t|
    ensures p + i < |js| && js[p + i] == t[i]
  {
    assert js[p..p + |t|][i] == t[i];
  }

  // ----- the scanners on printed text

  lemma {:induction false} ScanPrinted(js: string, p: nat, cs: seq<StrChar>)
    requires IsString(cs) && At(js, p, PrintChars(cs) + "\"")
    ensures ScanString(js, p) == Found(p + |PrintChars(cs)|)
    decreases |cs|
  {
    if cs == [] {
      assert PrintChars(cs) + "\"" == "\"";
      AtIndex(js, p, "\"", 0);
    } else {
      FirstPart(js, p, PrintChars(cs), PrintChar(cs[0]), PrintChars(cs[1..]));
      ScanCharPrinted(js, p, cs[0]);
      ScanPrinted(js, p + |PrintChar(cs[0])|, cs[1..]);
    }
  }

  /** A quote is found only behind the text of a string. */
  lemma {:induction false} FoundIsPrinted(js: string, p: nat) returns (cs: seq<StrChar>)
    requires p <= |js| && ScanString(js, p).Found?
    ensures IsString(cs) && At(js, p, PrintChars(cs) + "\"") && ScanString(js, p) == Found(p + |PrintChars(cs)|)
    decreases |js| - p
  {
    if js[p] == '\"' {
      cs := [];
      assert PrintChars(cs) + "\"" == "\"";
    } else {
      var c := FirstStrChar(js, p);
      ScanCharPrinted(js, p, c);
      var rest := FoundIsPrinted(js, p + |PrintChar(c)|);
      cs := [c] + rest;
      ConsPrinted(js, p, c, rest);
    }
  }

  lemma FirstStrChar(js: string, p: nat) returns (c: StrChar)
    requires p < |js| && ScanString(js, p).Found? && js[p] != '\"'
    ensures IsStrChar(c) && At(js, p, PrintChar(c))
  {
    if js[p] != '\\' {
      c := Plain(js[p]);
      assert js[p..p + 1] == [js[p]];
    } else if IsSimpleEscape(js[p + 1]) {
      c := Escaped(js[p + 1]);
      assert js[p..p + 2] == ['\\', js[p + 1]];
    } else {
      HexFound(js, p + 2, 4);
      c := Unicode(js[p + 2..p + 6]);
      assert js[p..p + 6] == "\\u" + c.hex;
    }
  }

  /** Hexadecimal digits before the end of the text are as many as there should be. */
  lemma {:induction false} HexFound(js: string, p: nat, n: nat)
    requires p <= |js| && ScanHex(js, p, n).Found? && !AtEnd(js, ScanHex(js, p, n).at)
    ensures ScanHex(js, p, n) == Found(p + n) && p + n <= |js| && forall i :: p <= i < p + n ==> IsHex(js[i])
    decreases n
  {
    if n > 0 { HexFound(js, p + 1, n - 1); }
  }

  lemma ConsPrinted(js: string, p: nat, c: StrChar, rest: seq<StrChar>)
    requires At(js, p, PrintChar(c)) && At(js, p + |PrintChar(c)|, PrintChars(rest) + "\"")
    ensures At(js, p, PrintChars([c] + rest) + "\"") && |PrintChars([c] + rest)| == |PrintChar(c)| + |PrintChars(rest)|
  {
    var a, b := PrintChar(c), PrintChars(rest) + "\"";
    assert ([c] + rest)[1..] == rest;
    assert PrintChars([c] + rest) + "\"" == a + b;
    forall i | 0 <= i < |a + b| ensures js[p + i] == (a + b)[i] {
      if i >= |a| { assert js[p + |a| + (i - |a|)] == b[i - |a|]; }
    }
  }

  /** The scan finds a quote at `e` if and only if the text up to there is that of a string. */
  lemma ScanStringIff(js: string, p: nat, e: nat)
    requires p <= |js|
    ensures ScanString(js, p) == Found(e) <==>
            exists cs :: IsString(cs) && At(js, p, PrintChars(cs) + "\"") && e == p + |PrintChars(cs)|
  {
    if ScanString(js, p) == Found(e) {
      var cs := FoundIsPrinted(js, p);
    }
    forall cs | IsString(cs) && At(js, p, PrintChars(cs) + "\"") ensures ScanString(js, p) == Found(p + |PrintChars(cs)|) {
      ScanPrinted(js, p, cs);
    }
  }

  lemma FirstPart(js: string, p: nat, whole: string, first: string, rest: string)
    requires At(js, p, whole + "\"") && whole == first + rest
    ensures At(js, p, first) && At(js, p + |first|, rest + "\"") && |whole| == |first| + |rest|
  {
    Associative(first, rest, "\"");
    AtConcat(js, p, first, rest + "\"");
  }

  lemma ScanCharPrinted(js: string, p: nat, c: StrChar)
    requires IsStrChar(c) && At(js, p, PrintChar(c))
    ensures ScanString(js, p) == ScanString(js, p + |PrintChar(c)|)
  {
    AtIndex(js, p, PrintChar(c), 0);
    if c.Escaped? {
      AtIndex(js, p, PrintChar(c), 1);
    } else if c.Unicode? {
      AtIndex(js, p, PrintChar(c), 1);
      HexPrinted(js, p, c.hex);
    }
  }

  lemma HexPrinted(js: string, p: nat, h: string)
    requires IsStrChar(Unicode(h)) && At(js, p, "\\u" + h)
    ensures ScanHex(js, p + 2, 4) == Found(p + 6)
  {
    AtConcat(js, p, "\\u", h);
    AtIndex(js, p + 2, h, 0);
    AtIndex(js, p + 2, h, 1);
    AtIndex(js, p + 2, h, 2);
    AtIndex(js, p + 2, h, 3);
    assert ScanHex(js, p + 5, 1) == Found(p + 6);
    assert ScanHex(js, p + 4, 2) == Found(p + 6);
  }

  lemma {:induction false} ScanPrimitivePrinted(js: string, p: nat, t: string)
    requires At(js, p, t) && (AtEnd(js, p + |t|) || IsDelimiter(js[p + |t|]))
    requires forall i :: 0 <= i < |t| ==> !IsDelimiter(t[i]) && 32 as char <= t[i] < 127 as char
    ensures ScanPrimitive(js, p) == Found(p + |t|)
    decreases |t|
  {
    if t != [] {
      AtIndex(js, p, t, 0);
      AtConcat(js, p, t[..1], t[1..]);
      assert t == t[..1] + t[1..];
      ScanPrimitivePrinted(js, p + 1, t[1..]);
    }
  }

  // ----- runs over printed text

  /** `f` is the same before and after every step. To show that a text leads from
      one state to another is to show that every such `f` is the same for both. */
  ghost predicate KeptBySteps(js: string, cap: nat, f: State -> (Outcome, State)) {
    forall s {:trigger Step(js, cap, s)} ::
      WellFormed(s) && !AtEnd(js, s.pos) && Step(js, cap, s).Next? ==> f(s) == f(Step(js, cap, s).s)
  }

  /** A text, a number of tokens, and a function of states that steps do not change: what is
      proved of every such function holds of the outcome of runs. */
  datatype Reading = Reading(js: string, cap: nat, f: State -> (Outcome, State))

  type Reader = r: Reading | KeptBySteps(r.js, r.cap, r.f) witness Reading("", 0, (s: State) => (Count(0), Init))

  lemma OneStep(rd: Reader, s: State, t: State)
    requires WellFormed(s) && !AtEnd(rd.js, s.pos) && Step(rd.js, rd.cap, s) == Next(t)
    ensures rd.f(s) == rd.f(t)
  {
  }

  /** White space is skipped. */
  lemma {:induction false} RunBlank(rd: Reader, s: State, ws: string)
    requires WellFormed(s) && Blank(ws) && At(rd.js, s.pos, ws)
    ensures rd.f(s) == rd.f(s.(pos := s.pos + |ws|))
    decreases |ws|
  {
    if ws != [] {
      AtIndex(rd.js, s.pos, ws, 0);
      assert ws == ws[..1] + ws[1..];
      AtConcat(rd.js, s.pos, ws[..1], ws[1..]);
      assert Step(rd.js, rd.cap, s) == Next(s.(pos := s.pos + 1));
      RunBlank(rd, s.(pos := s.pos + 1), ws[1..]);
    }
  }

  /** The state after the text of a value: its tokens are added, the superior
      token has one more child, and after a container the enclosing one is superior. */
  function AfterValue(s: State, v: Value): State
    requires WellFormed(s)
  {
    State(s.pos + |Print(v)|, Bump(s.toks, s.sup) + Tokens(v, s.pos),
          if v.Arr? || v.Obj? then LastOpen(s.toks, |s.toks|) else s.sup)
  }

  /** `n` more children of token `k`. */
  function BumpBy(toks: seq<Token>, k: nat, n: nat): seq<Token>
    requires k < |toks|
  {
    toks[k := toks[k].(size := toks[k].size + n)]
  }

  lemma StringStep(js: string, cap: nat, s: State, e: nat)
    requires WellFormed(s) && s.pos < |js| && js[s.pos] == '\"' && |s.toks| < cap
    requires ScanString(js, s.pos + 1) == Found(e)
    ensures Step(js, cap, s) == Next(State(e + 1, Bump(s.toks, s.sup) + [Token(String, s.pos + 1, e, 0)], s.sup))
  {
  }

  lemma RunString(rd: Reader, s: State, cs: seq<StrChar>)
    requires WellFormed(s)
    requires IsString(cs) && At(rd.js, s.pos, PrintString(cs)) && |s.toks| < rd.cap
    ensures rd.f(s) == rd.f(State(s.pos + |PrintString(cs)|, Bump(s.toks, s.sup) + [StringToken(cs, s.pos, 0)], s.sup))
  {
    StringText(rd.js, s.pos, cs);
    var e := s.pos + 1 + |PrintChars(cs)|;
    StringStep(rd.js, rd.cap, s, e);
    OneStep(rd, s, State(e + 1, Bump(s.toks, s.sup) + [Token(String, s.pos + 1, e, 0)], s.sup));
  }

  lemma StringText(js: string, p: nat, cs: seq<StrChar>)
    requires IsString(cs) && At(js, p, PrintString(cs))
    ensures p < |js| && js[p] == '\"' && ScanString(js, p + 1) == Found(p + 1 + |PrintChars(cs)|)
  {
    QuotedText(js, p, PrintChars(cs));
    ScanPrinted(js, p + 1, cs);
  }

  lemma QuotedText(js: string, p: nat, t: string)
    requires At(js, p, "\"" + t + "\"")
    ensures p < |js| && js[p] == '\"' && At(js, p + 1, t + "\"")
  {
    Associative("\"", t, "\"");
    AtConcat(js, p, "\"", t + "\"");
    AtIndex(js, p, "\"", 0);
  }

  lemma RunPrimitive(rd: Reader, s: State, t: string)
    requires WellFormed(s) && IsPrimitiveText(t) && At(rd.js, s.pos, t) && |s.toks| < rd.cap
    requires AtEnd(rd.js, s.pos + |t|) || IsDelimiter(rd.js[s.pos + |t|])
    ensures rd.f(s) == rd.f(AfterValue(s, Prim(t)))
  {
    AtIndex(rd.js, s.pos, t, 0);
    ScanPrimitivePrinted(rd.js, s.pos, t);
    assert Step(rd.js, rd.cap, s) == Next(AfterValue(s, Prim(t)));
  }

  /** No token of a value is open. */
  ghost predicate AllClosed(toks: seq<Token>) {
    forall i :: 0 <= i < |toks| ==> !IsOpen(toks[i])
  }

  lemma {:induction false} TokensClosed(v: Value, p: nat)
    ensures AllClosed(Tokens(v, p)) && Tokens(v, p) != []
  {
    match v
    case Prim(_) =>
    case Str(_) =>
    case Arr(es) => ElemTokensClosed(es, p + 1);
    case Obj(ms) => MemberTokensClosed(ms, p + 1);
  }

  lemma {:induction false} ElemTokensClosed(es: Elems, p: nat)
    ensures AllClosed(ElemTokens(es, p))
  {
    match es
    case NoElems(_) =>
    case LastElem(pre, v, _) => TokensClosed(v, p + |pre|);
    case Elem(pre, v, post, rest) =>
      TokensClosed(v, p + |pre|);
      ElemTokensClosed(rest, p + |pre| + |Print(v)| + |post| + 1);
  }

  lemma {:induction false} MemberTokensClosed(ms: Members, p: nat)
    ensures AllClosed(MemberTokens(ms, p))
  {
    match ms
    case NoMembers(_) =>
    case LastMember(pre, key, mid, pre2, v, _) => TokensClosed(v, ValueAt(p, pre, key, mid, pre2));
    case Member(pre, key, mid, pre2, v, post, rest) =>
      var q := ValueAt(p, pre, key, mid, pre2);
      TokensClosed(v, q);
      MemberTokensClosed(rest, q + |Print(v)| + |post| + 1);
  }

  /** A value ends at `q` when the text ends there or goes on with a delimiter. */
  predicate EndsAt(js: string, q: nat) {
    AtEnd(js, q) || IsDelimiter(js[q])
  }

  lemma BlankEnds(js: string, q: nat, ws: string)
    requires Blank(ws) && At(js, q, ws) && EndsAt(js, q + |ws|)
    ensures EndsAt(js, q)
  {
    if ws != [] { AtIndex(js, q, ws, 0); }
  }

  /** The text of a value, met in any state with enough room. */
  lemma {:induction false} RunValue(rd: Reader, s: State, v: Value)
    requires WellFormed(s) && IsJson(v) && At(rd.js, s.pos, Print(v)) && EndsAt(rd.js, s.pos + |Print(v)|)
    requires |s.toks| + |Tokens(v, s.pos)| <= rd.cap
    ensures rd.f(s) == rd.f(AfterValue(s, v))
    decreases v, 0
  {
    match v
    case Prim(t) => RunPrimitive(rd, s, t);
    case Str(cs) => RunString(rd, s, cs);
    case Arr(es) => RunArray(rd, s, es);
    case Obj(ms) =>
      ObjectText(rd.js, s.pos, ms);
      RunObject(rd, s, ms);
  }

  lemma {:induction false} RunArray(rd: Reader, s: State, es: Elems)
    requires WellFormed(s) && AreElems(es) && At(rd.js, s.pos, Print(Arr(es)))
    requires |s.toks| + 1 + |ElemTokens(es, s.pos + 1)| <= rd.cap
    ensures rd.f(s) == rd.f(AfterValue(s, Arr(es)))
    decreases es, 5
  {
    var inner := ElemTokens(es, s.pos + 1);
    var open, n := EnterContainer(rd, s, '[', PrintElems(es), ']');
    RunElems(rd, open, es, n);
    ElemTokensClosed(es, s.pos + 1);
    LeaveContainer(rd, s, open.pos + |PrintElems(es)|, n, Array, ElemCount(es), inner);
  }

  lemma {:induction false} RunObject(rd: Reader, s: State, ms: Members)
    requires WellFormed(s) && AreMembers(ms) && At(rd.js, s.pos, ['{'] + PrintMembers(ms) + ['}'])
    requires |s.toks| + 1 + |MemberTokens(ms, s.pos + 1)| <= rd.cap
    ensures rd.f(s) == rd.f(AfterValue(s, Obj(ms)))
    decreases ms, 6
  {
    var open, n := EnterContainer(rd, s, '{', PrintMembers(ms), '}');
    RunOpenObject(rd, s, open, ms);
  }

  lemma ObjectText(js: string, p: nat, ms: Members)
    requires At(js, p, Print(Obj(ms)))
    ensures At(js, p, ['{'] + PrintMembers(ms) + ['}'])
  {
    assert Print(Obj(ms)) == ['{'] + PrintMembers(ms) + ['}'];
  }

  /** The rest of an object, from its opening bracket on. */
  lemma {:induction false} RunOpenObject(rd: Reader, s: State, open: State, ms: Members)
    requires WellFormed(s) && AreMembers(ms)
    requires open == State(s.pos + 1, Opened(s, Object, 0), |s.toks|) && LastOpen(open.toks, |open.toks|) == |s.toks|
    requires At(rd.js, s.pos + 1, PrintMembers(ms))
    requires s.pos + 1 + |PrintMembers(ms)| < |rd.js| && rd.js[s.pos + 1 + |PrintMembers(ms)|] == '}'
    requires |s.toks| + 1 + |MemberTokens(ms, s.pos + 1)| <= rd.cap
    ensures rd.f(open) == rd.f(AfterValue(s, Obj(ms)))
    decreases ms, 5
  {
    var sup := RunMembers(rd, open, ms, |s.toks|);
    ObjectEnds(rd, s, open, ms, sup);
  }

  /** The closing bracket of an object. */
  lemma ObjectEnds(rd: Reader, s: State, open: State, ms: Members, sup: int)
    requires WellFormed(s) && open == State(s.pos + 1, Opened(s, Object, 0), |s.toks|)
    requires WellFormed(AfterMembers(open, ms, |s.toks|, sup))
    requires s.pos + 1 + |PrintMembers(ms)| < |rd.js| && rd.js[s.pos + 1 + |PrintMembers(ms)|] == '}'
    ensures rd.f(AfterMembers(open, ms, |s.toks|, sup)) == rd.f(AfterValue(s, Obj(ms)))
  {
    MemberTokensClosed(ms, s.pos + 1);
    LeaveContainer(rd, s, s.pos + 1 + |PrintMembers(ms)|, sup, Object, MemberCount(ms), MemberTokens(ms, s.pos + 1));
    AfterObject(s, ms);
  }

  /** The state after an object. */
  lemma AfterObject(s: State, ms: Members)
    requires WellFormed(s)
    ensures var q, inner := s.pos + 1 + |PrintMembers(ms)|, MemberTokens(ms, s.pos + 1);
            AfterValue(s, Obj(ms)) ==
            State(q + 1, Bump(s.toks, s.sup) + ([Token(Object, s.pos, q + 1, MemberCount(ms))] + inner), LastOpen(s.toks, |s.toks|))
  {
  }

  /** The tokens while a container is open: the new token, not yet ended, after
      those of `s`. */
  function Opened(s: State, kind: Kind, size: nat): (toks: seq<Token>)
    requires WellFormed(s)
  {
    Bump(s.toks, s.sup) + [Token(kind, s.pos, -1, size)]
  }

  /** Reading an opening bracket. */
  lemma EnterContainer(rd: Reader, s: State, l: char,
                       body: string, r: char) returns (open: State, n: nat)
    requires WellFormed(s) && |s.toks| < rd.cap && (l == '{' || l == '[') && At(rd.js, s.pos, [l] + body + [r])
    ensures open == State(s.pos + 1, Opened(s, if l == '{' then Object else Array, 0), |s.toks|)
    ensures n == |s.toks| && LastOpen(open.toks, |open.toks|) == n
    ensures rd.f(s) == rd.f(open)
    ensures At(rd.js, s.pos + 1, body)
    ensures s.pos + 1 + |body| < |rd.js| && rd.js[s.pos + 1 + |body|] == r
  {
    Associative([l], body, [r]);
    AtConcat(rd.js, s.pos, [l], body + [r]);
    AtConcat(rd.js, s.pos + 1, body, [r]);
    AtIndex(rd.js, s.pos, [l], 0);
    AtIndex(rd.js, s.pos + 1 + |body|, [r], 0);
    n := |s.toks|;
    open := StepOpen(rd.js, rd.cap, s).s;
    assert Step(rd.js, rd.cap, s) == Next(open);
  }

  /** Reading a closing bracket at `q`, after `n` children with the tokens `inner`. */
  lemma LeaveContainer(rd: Reader, s: State, q: nat, sup: int,
                       kind: Kind, n: nat, inner: seq<Token>)
    requires WellFormed(s) && !AtEnd(rd.js, q) && AllClosed(inner)
    requires -1 <= sup <= |s.toks| + |inner|
    requires (kind == Object && rd.js[q] == '}') || (kind == Array && rd.js[q] == ']')
    ensures rd.f(State(q, BumpBy(Opened(s, kind, 0), |s.toks|, n) + inner, sup)) ==
            rd.f(State(q + 1, Bump(s.toks, s.sup) + ([Token(kind, s.pos, q + 1, n)] + inner), LastOpen(s.toks, |s.toks|)))
  {
    var k, t := |s.toks|, Token(kind, s.pos, -1, n);
    var toks := Bump(s.toks, s.sup) + [t] + inner;
    assert BumpBy(Opened(s, kind, 0), k, n) + inner == toks;
    CloseStep(rd.js, rd.cap, s, q, sup, t, inner);
  }

  lemma CloseStep(js: string, cap: nat, s: State, q: nat, sup: int, t: Token, inner: seq<Token>)
    requires WellFormed(s) && !AtEnd(js, q) && AllClosed(inner)
    requires -1 <= sup <= |s.toks| + |inner| && IsOpen(t)
    requires (t.kind == Object && js[q] == '}') || (t.kind == Array && js[q] == ']')
    ensures Step(js, cap, State(q, Bump(s.toks, s.sup) + [t] + inner, sup)) ==
            Next(State(q + 1, Bump(s.toks, s.sup) + ([t.(end := q + 1)] + inner), LastOpen(s.toks, |s.toks|)))
  {
    var k, b := |s.toks|, Bump(s.toks, s.sup);
    var toks := b + [t] + inner;
    assert toks[k] == t && forall i :: k < i < |toks| ==> toks[i] == inner[i - k - 1];
    assert LastOpen(toks, |toks|) == k;
    var closed := toks[k := t.(end := q + 1)];
    assert closed == b + ([t.(end := q + 1)] + inner);
    assert forall i :: 0 <= i < k ==> closed[i] == b[i] && IsOpen(b[i]) == IsOpen(s.toks[i]);
    assert LastOpen(closed, k + 1) == LastOpen(s.toks, k);
  }

  /** One element: white space, a value, white space. */
  lemma {:induction false} RunOneElem(rd: Reader, s: State,
                                      pre: string, v: Value, post: string, k: nat)
    requires WellFormed(s) && s.sup == k && LastOpen(s.toks, |s.toks|) == k
    requires Blank(pre) && IsJson(v) && Blank(post)
    requires At(rd.js, s.pos, pre + Print(v) + post) && EndsAt(rd.js, s.pos + |pre| + |Print(v)| + |post|)
    requires |s.toks| + |Tokens(v, s.pos + |pre|)| <= rd.cap
    ensures rd.f(s) ==
            rd.f(State(s.pos + |pre| + |Print(v)| + |post|, BumpBy(s.toks, k, 1) + Tokens(v, s.pos + |pre|), k))
    decreases v, 2
  {
    ElemParts(rd.js, s.pos, pre, Print(v), post);
    RunElem(rd, s.(pos := s.pos + |pre|), v, k);
    var toks := BumpBy(s.toks, k, 1) + Tokens(v, s.pos + |pre|);
    Around(rd, s, pre, |Print(v)|, toks, k, post);
  }

  lemma {:induction false} RunElem(rd: Reader, s: State, v: Value, k: nat)
    requires WellFormed(s) && s.sup == k && LastOpen(s.toks, |s.toks|) == k
    requires IsJson(v) && At(rd.js, s.pos, Print(v)) && EndsAt(rd.js, s.pos + |Print(v)|)
    requires |s.toks| + |Tokens(v, s.pos)| <= rd.cap
    ensures rd.f(s) == rd.f(State(s.pos + |Print(v)|, BumpBy(s.toks, k, 1) + Tokens(v, s.pos), k))
    decreases v, 1
  {
    RunValue(rd, s, v);
    ElemState(s, v, k);
  }

  /** The state after an element of array `k`. */
  lemma ElemState(t: State, v: Value, k: nat)
    requires WellFormed(t) && t.sup == k && LastOpen(t.toks, |t.toks|) == k
    ensures AfterValue(t, v) == State(t.pos + |Print(v)|, BumpBy(t.toks, k, 1) + Tokens(v, t.pos), k)
  {
  }

  /** White space before and behind a text that leads from one state to another. */
  lemma Around(rd: Reader, a: State, pre: string, n: nat, toks: seq<Token>, sup: int, post: string)
    requires WellFormed(a) && -1 <= sup < |toks| && Blank(pre) && Blank(post)
    requires At(rd.js, a.pos, pre) && At(rd.js, a.pos + |pre| + n, post)
    requires rd.f(a.(pos := a.pos + |pre|)) == rd.f(State(a.pos + |pre| + n, toks, sup))
    ensures rd.f(a) == rd.f(State(a.pos + |pre| + n + |post|, toks, sup))
  {
    RunBlank(rd, a, pre);
    RunBlank(rd, State(a.pos + |pre| + n, toks, sup), post);
  }

  /** The parts of a text between white space. */
  lemma ElemParts(js: string, p: nat, pre: string, text: string, post: string)
    requires At(js, p, pre + text + post) && Blank(post) && EndsAt(js, p + |pre| + |text| + |post|)
    ensures At(js, p, pre) && At(js, p + |pre|, text) && At(js, p + |pre| + |text|, post) && EndsAt(js, p + |pre| + |text|)
  {
    AtConcat(js, p, pre + text, post);
    AtConcat(js, p, pre, text);
    BlankEnds(js, p + |pre| + |text|, post);
  }

  /** The state after the text of the elements of array `k`. */
  function AfterElems(s: State, es: Elems, k: nat): State
    requires k < |s.toks|
  {
    State(s.pos + |PrintElems(es)|, BumpBy(s.toks, k, ElemCount(es)) + ElemTokens(es, s.pos), k)
  }

  /** The state after one element and its comma. */
  function AfterElem(s: State, es: Elems, k: nat): State
    requires k < |s.toks| && es.Elem?
  {
    State(s.pos + |es.pre| + |Print(es.v)| + |es.post| + 1, BumpBy(s.toks, k, 1) + Tokens(es.v, s.pos + |es.pre|), k)
  }

  lemma AfterElemThenRest(s: State, es: Elems, k: nat)
    requires k < |s.toks| && es.Elem?
    ensures AfterElems(AfterElem(s, es, k), es.rest, k) == AfterElems(s, es, k)
  {
    var q := AfterElem(s, es, k).pos;
    BumpTwice(s.toks, k, 1, ElemCount(es.rest), Tokens(es.v, s.pos + |es.pre|), ElemTokens(es.rest, q));
  }

  /** The elements of an array, up to its closing bracket. */
  lemma {:induction false} RunElems(rd: Reader, s: State, es: Elems, k: nat)
    requires WellFormed(s)
    requires s.sup == k && LastOpen(s.toks, |s.toks|) == k && IsContainer(s.toks[k])
    requires AreElems(es) && At(rd.js, s.pos, PrintElems(es)) && EndsAt(rd.js, s.pos + |PrintElems(es)|)
    requires |s.toks| + |ElemTokens(es, s.pos)| <= rd.cap
    ensures rd.f(s) == rd.f(AfterElems(s, es, k))
    decreases es, 4
  {
    match es
    case NoElems(ws) =>
      RunBlank(rd, s, ws);
      BumpByNone(s.toks, k);
    case LastElem(pre, v, post) => RunOneElem(rd, s, pre, v, post, k);
    case Elem(_, _, _, rest) =>
      RunFirstElem(rd, s, es, k);
      AfterElemThenRest(s, es, k);
      RunElems(rd, AfterElem(s, es, k), rest, k);
  }

  /** The first of several elements leads to where the others can be read. */
  lemma {:induction false} RunFirstElem(rd: Reader, s: State, es: Elems, k: nat)
    requires WellFormed(s) && es.Elem?
    requires s.sup == k && LastOpen(s.toks, |s.toks|) == k && IsContainer(s.toks[k])
    requires AreElems(es) && At(rd.js, s.pos, PrintElems(es)) && EndsAt(rd.js, s.pos + |PrintElems(es)|)
    requires |s.toks| + |ElemTokens(es, s.pos)| <= rd.cap
    ensures var t := AfterElem(s, es, k);
            rd.f(s) == rd.f(t) && LastOpen(t.toks, |t.toks|) == k && IsContainer(t.toks[k]) &&
            At(rd.js, t.pos, PrintElems(es.rest)) && EndsAt(rd.js, t.pos + |PrintElems(es.rest)|) &&
            |t.toks| + |ElemTokens(es.rest, t.pos)| <= rd.cap
    decreases es.v, 4
  {
    ElemCommaText(rd.js, s, es, k);
    RunElemComma(rd, s, es, k);
  }

  /** An element and the comma behind it. */
  lemma {:induction false} RunElemComma(rd: Reader, s: State, es: Elems, k: nat)
    requires WellFormed(s) && es.Elem?
    requires s.sup == k && LastOpen(s.toks, |s.toks|) == k && IsContainer(s.toks[k])
    requires Blank(es.pre) && IsJson(es.v) && Blank(es.post) && At(rd.js, s.pos, es.pre + Print(es.v) + es.post)
    requires var q := AfterElem(s, es, k).pos - 1; !AtEnd(rd.js, q) && rd.js[q] == ','
    requires |AfterElem(s, es, k).toks| <= rd.cap
    ensures var t := AfterElem(s, es, k);
            rd.f(s) == rd.f(t) && LastOpen(t.toks, |t.toks|) == k && IsContainer(t.toks[k])
    decreases es.v, 3
  {
    var t := AfterElem(s, es, k);
    RunOneElem(rd, s, es.pre, es.v, es.post, k);
    var inner := Tokens(es.v, s.pos + |es.pre|);
    TokensClosed(es.v, s.pos + |es.pre|);
    CommaAfter(rd, s, t.pos - 1, k, k, inner);
  }

  /** The comma at `q`, behind a child with the tokens `inner`. */
  lemma CommaAfter(rd: Reader, s: State, q: nat, k: nat, sup: int, inner: seq<Token>)
    requires k < |s.toks| && LastOpen(s.toks, |s.toks|) == k && IsContainer(s.toks[k])
    requires AllClosed(inner) && !AtEnd(rd.js, q) && rd.js[q] == ','
    requires sup == k || (sup == |s.toks| && |inner| > 0 && inner[0].kind == String)
    requires WellFormed(State(q, BumpBy(s.toks, k, 1) + inner, sup))
    ensures var toks := BumpBy(s.toks, k, 1) + inner;
            rd.f(State(q, toks, sup)) == rd.f(State(q + 1, toks, k)) && LastOpen(toks, |toks|) == k && IsContainer(toks[k])
  {
    var toks := BumpBy(s.toks, k, 1) + inner;
    OpenStaysLast(s.toks, k, 1, inner);
    RunComma(rd, State(q, toks, sup), k);
  }

  lemma ElemCommaText(js: string, s: State, es: Elems, k: nat)
    requires k < |s.toks| && es.Elem? && At(js, s.pos, PrintElems(es))
    ensures var t := AfterElem(s, es, k);
            At(js, s.pos, es.pre + Print(es.v) + es.post) && t.pos <= |js| && js[t.pos - 1] == ',' &&
            At(js, t.pos, PrintElems(es.rest)) &&
            s.pos + |PrintElems(es)| == t.pos + |PrintElems(es.rest)| &&
            |s.toks| + |ElemTokens(es, s.pos)| == |t.toks| + |ElemTokens(es.rest, t.pos)|
  {
    var first := es.pre + Print(es.v) + es.post;
    FirstElem(s, es, k, first);
    ElemText(js, s.pos, first, PrintElems(es.rest));
  }

  /** How the text and the tokens of elements begin. */
  lemma FirstElem(s: State, es: Elems, k: nat, first: string)
    requires k < |s.toks| && es.Elem? && first == es.pre + Print(es.v) + es.post
    ensures PrintElems(es) == first + "," + PrintElems(es.rest)
    ensures var t := AfterElem(s, es, k);
            t.pos == s.pos + |first| + 1 &&
            |s.toks| + |ElemTokens(es, s.pos)| == |t.toks| + |ElemTokens(es.rest, t.pos)|
  {
  }

  /** The parts of a comma-separated text. */
  lemma ElemText(js: string, p: nat, first: string, rest: string)
    requires At(js, p, first + "," + rest)
    ensures At(js, p, first) && At(js, p + |first| + 1, rest) && p + |first| < |js| && js[p + |first|] == ','
  {
    AtConcat(js, p, first + ",", rest);
    AtConcat(js, p, first, ",");
    AtIndex(js, p + |first|, ",", 0);
  }

  /** Closed tokens behind an open one leave it the last open one. */
  lemma OpenStaysLast(toks: seq<Token>, k: nat, n: nat, inner: seq<Token>)
    requires k < |toks| && LastOpen(toks, |toks|) == k && AllClosed(inner)
    ensures var r := BumpBy(toks, k, n) + inner; LastOpen(r, |r|) == k
  {
    var r := BumpBy(toks, k, n) + inner;
    assert IsOpen(r[k]);
    forall i | k < i < |r| ensures !IsOpen(r[i]) {
      if i < |toks| { assert r[i] == toks[i]; } else { assert r[i] == inner[i - |toks|]; }
    }
  }

  lemma BumpByNone(toks: seq<Token>, k: nat)
    requires k < |toks|
    ensures BumpBy(toks, k, 0) + [] == toks
  {
  }

  lemma BumpTwice(toks: seq<Token>, k: nat, m: nat, n: nat, a: seq<Token>, b: seq<Token>)
    requires k < |toks|
    ensures BumpBy(BumpBy(toks, k, m) + a, k, n) + b == BumpBy(toks, k, m + n) + (a + b)
  {
  }

  /** One member: a key, a colon and a value. The key becomes superior, so that the
      value counts as its child; which token is superior afterwards does not matter. */
  lemma {:induction false} RunOneMember(rd: Reader, s: State,
                                        pre: string, key: seq<StrChar>, mid: string, pre2: string, v: Value,
                                        post: string, k: nat) returns (sup: int)
    requires WellFormed(s) && s.sup == k && LastOpen(s.toks, |s.toks|) == k
    requires Blank(pre) && IsString(key) && Blank(mid) && Blank(pre2) && IsJson(v) && Blank(post)
    requires At(rd.js, s.pos, pre + PrintString(key) + mid + ":" + pre2 + Print(v) + post)
    requires var q := ValueAt(s.pos, pre, key, mid, pre2);
             EndsAt(rd.js, q + |Print(v)| + |post|) && |s.toks| + 1 + |Tokens(v, q)| <= rd.cap
    ensures sup == k || sup == |s.toks|
    ensures var q := ValueAt(s.pos, pre, key, mid, pre2);
            rd.f(s) ==
            rd.f(State(q + |Print(v)| + |post|,
                            BumpBy(s.toks, k, 1) + [StringToken(key, s.pos + |pre|, 1)] + Tokens(v, q), sup))
    decreases v, 2
  {
    var q := ValueAt(s.pos, pre, key, mid, pre2);
    MemberText(rd.js, s.pos, pre, key, mid, pre2, v, post);
    RunKey(rd, s, pre, key, mid, k);
    var tok := StringToken(key, s.pos + |pre|, 0);
    sup := RunMemberValue(rd, s, tok, q - |pre2|, pre2, v, post, k);
  }

  /** The parts of the text of a member. */
  lemma MemberText(js: string, p: nat, pre: string, key: seq<StrChar>, mid: string, pre2: string, v: Value, post: string)
    requires At(js, p, pre + PrintString(key) + mid + ":" + pre2 + Print(v) + post)
    ensures var q := ValueAt(p, pre, key, mid, pre2);
            At(js, p, pre + PrintString(key) + mid + ":") && At(js, q - |pre2|, pre2) && At(js, q, Print(v)) &&
            At(js, q + |Print(v)|, post)
  {
    AtConcat(js, p, pre + PrintString(key) + mid + ":" + pre2 + Print(v), post);
    AtConcat(js, p, pre + PrintString(key) + mid + ":" + pre2, Print(v));
    AtConcat(js, p, pre + PrintString(key) + mid + ":", pre2);
  }

  /** The value of a member, behind its key and colon. */
  lemma {:induction false} RunMemberValue(rd: Reader, s: State, tok: Token, p: nat,
                                          pre2: string, v: Value, post: string, k: nat) returns (sup: int)
    requires WellFormed(s) && s.sup == k && LastOpen(s.toks, |s.toks|) == k
    requires tok.kind == String && tok.size == 0 && !IsOpen(tok) && Blank(pre2) && IsJson(v) && Blank(post)
    requires WellFormed(State(p, BumpBy(s.toks, k, 1) + [tok], |s.toks|))
    requires At(rd.js, p, pre2) && At(rd.js, p + |pre2|, Print(v)) && At(rd.js, p + |pre2| + |Print(v)|, post)
    requires EndsAt(rd.js, p + |pre2| + |Print(v)| + |post|) && |s.toks| + 1 + |Tokens(v, p + |pre2|)| <= rd.cap
    ensures sup == k || sup == |s.toks|
    ensures rd.f(State(p, BumpBy(s.toks, k, 1) + [tok], |s.toks|)) ==
            rd.f(State(p + |pre2| + |Print(v)| + |post|,
                       BumpBy(s.toks, k, 1) + [tok.(size := 1)] + Tokens(v, p + |pre2|), sup))
    decreases v, 1
  {
    BlankEnds(rd.js, p + |pre2| + |Print(v)|, post);
    var t := State(p, BumpBy(s.toks, k, 1) + [tok], |s.toks|);
    var u := t.(pos := p + |pre2|);
    RunValue(rd, u, v);
    sup := MemberState(s, tok, u, v, k);
    var toks := BumpBy(s.toks, k, 1) + [tok.(size := 1)] + Tokens(v, p + |pre2|);
    Around(rd, t, pre2, |Print(v)|, toks, sup, post);
  }

  /** The state after the value of a member of object `k`. */
  lemma MemberState(s: State, tok: Token, u: State, v: Value, k: nat) returns (sup: int)
    requires WellFormed(s) && s.sup == k && LastOpen(s.toks, |s.toks|) == k
    requires tok.kind == String && tok.size == 0 && !IsOpen(tok)
    requires u.toks == BumpBy(s.toks, k, 1) + [tok] && u.sup == |s.toks|
    ensures sup == k || sup == |s.toks|
    ensures AfterValue(u, v) ==
            State(u.pos + |Print(v)|, BumpBy(s.toks, k, 1) + [tok.(size := 1)] + Tokens(v, u.pos), sup)
  {
    sup := AfterValue(u, v).sup;
    assert Bump(u.toks, u.sup) == BumpBy(s.toks, k, 1) + [tok.(size := 1)];
    OpenStaysLast(s.toks, k, 1, [tok]);
  }

  /** A key and its colon. */
  lemma RunKey(rd: Reader, s: State, pre: string, key: seq<StrChar>, mid: string, k: nat)
    requires WellFormed(s) && s.sup == k && Blank(pre) && IsString(key) && Blank(mid) && |s.toks| < rd.cap
    requires At(rd.js, s.pos, pre + PrintString(key) + mid + ":")
    ensures rd.f(s) ==
            rd.f(State(s.pos + |pre| + |PrintString(key)| + |mid| + 1,
                       BumpBy(s.toks, k, 1) + [StringToken(key, s.pos + |pre|, 0)], |s.toks|))
  {
    AtConcat(rd.js, s.pos, pre + PrintString(key) + mid, ":");
    AtConcat(rd.js, s.pos, pre + PrintString(key), mid);
    AtConcat(rd.js, s.pos, pre, PrintString(key));
    AtIndex(rd.js, s.pos + |pre| + |PrintString(key)| + |mid|, ":", 0);
    RunBlank(rd, s, pre);
    var a := s.(pos := s.pos + |pre|);
    RunString(rd, a, key);
    var b := State(a.pos + |PrintString(key)|, Bump(s.toks, s.sup) + [StringToken(key, a.pos, 0)], s.sup);
    RunBlank(rd, b, mid);
    var c := b.(pos := b.pos + |mid|);
    assert Step(rd.js, rd.cap, c) == Next(State(c.pos + 1, c.toks, |s.toks|));
  }

  /** The state after the text of the members of object `k`. */
  function AfterMembers(s: State, ms: Members, k: nat, sup: int): State
    requires k < |s.toks|
  {
    State(s.pos + |PrintMembers(ms)|, BumpBy(s.toks, k, MemberCount(ms)) + MemberTokens(ms, s.pos), sup)
  }

  /** The state after one member and its comma. */
  function AfterMember(s: State, ms: Members, k: nat): State
    requires k < |s.toks| && ms.Member?
  {
    var q := ValueAt(s.pos, ms.pre, ms.key, ms.mid, ms.pre2);
    State(q + |Print(ms.v)| + |ms.post| + 1,
          BumpBy(s.toks, k, 1) + ([StringToken(ms.key, s.pos + |ms.pre|, 1)] + Tokens(ms.v, q)), k)
  }

  lemma AfterMemberThenRest(s: State, ms: Members, k: nat, sup: int)
    requires k < |s.toks| && ms.Member?
    ensures AfterMembers(AfterMember(s, ms, k), ms.rest, k, sup) == AfterMembers(s, ms, k, sup)
  {
    var t := AfterMember(s, ms, k);
    var q := ValueAt(s.pos, ms.pre, ms.key, ms.mid, ms.pre2);
    BumpTwice(s.toks, k, 1, MemberCount(ms.rest), [StringToken(ms.key, s.pos + |ms.pre|, 1)] + Tokens(ms.v, q),
              MemberTokens(ms.rest, t.pos));
  }

  /** The members of an object, up to its closing bracket. */
  lemma {:induction false} RunMembers(rd: Reader, s: State, ms: Members, k: nat)
    returns (sup: int)
    requires WellFormed(s)
    requires s.sup == k && LastOpen(s.toks, |s.toks|) == k && IsContainer(s.toks[k])
    requires AreMembers(ms) && At(rd.js, s.pos, PrintMembers(ms)) && EndsAt(rd.js, s.pos + |PrintMembers(ms)|)
    requires |s.toks| + |MemberTokens(ms, s.pos)| <= rd.cap
    ensures WellFormed(AfterMembers(s, ms, k, sup)) && rd.f(s) == rd.f(AfterMembers(s, ms, k, sup))
    decreases ms, 4
  {
    match ms
    case NoMembers(_) =>
      RunNoMembers(rd, s, ms, k);
      sup := k;
    case LastMember(_, _, _, _, _, _) =>
      sup := RunLastMember(rd, s, ms, k);
    case Member(_, _, _, _, _, _, rest) =>
      RunFirstMember(rd, s, ms, k);
      sup := RunMembers(rd, AfterMember(s, ms, k), rest, k);
      AfterMemberThenRest(s, ms, k, sup);
  }

  lemma RunNoMembers(rd: Reader, s: State, ms: Members, k: nat)
    requires WellFormed(s) && ms.NoMembers? && s.sup == k && AreMembers(ms) && At(rd.js, s.pos, PrintMembers(ms))
    ensures rd.f(s) == rd.f(AfterMembers(s, ms, k, k))
  {
    RunBlank(rd, s, ms.ws);
    BumpByNone(s.toks, k);
  }

  lemma {:induction false} RunLastMember(rd: Reader, s: State, ms: Members, k: nat)
    returns (sup: int)
    requires WellFormed(s) && ms.LastMember?
    requires s.sup == k && LastOpen(s.toks, |s.toks|) == k
    requires AreMembers(ms) && At(rd.js, s.pos, PrintMembers(ms)) && EndsAt(rd.js, s.pos + |PrintMembers(ms)|)
    requires |s.toks| + |MemberTokens(ms, s.pos)| <= rd.cap
    ensures WellFormed(AfterMembers(s, ms, k, sup)) && rd.f(s) == rd.f(AfterMembers(s, ms, k, sup))
    decreases ms.v, 3
  {
    var q := ValueAt(s.pos, ms.pre, ms.key, ms.mid, ms.pre2);
    var t := AfterMembers(s, ms, k, k);
    assert t.pos == q + |Print(ms.v)| + |ms.post|;
    assert t.toks == BumpBy(s.toks, k, 1) + [StringToken(ms.key, s.pos + |ms.pre|, 1)] + Tokens(ms.v, q);
    sup := RunOneMember(rd, s, ms.pre, ms.key, ms.mid, ms.pre2, ms.v, ms.post, k);
  }

  /** The first of several members leads to where the others can be read. */
  lemma {:induction false} RunFirstMember(rd: Reader, s: State, ms: Members, k: nat)
    requires WellFormed(s) && ms.Member?
    requires s.sup == k && LastOpen(s.toks, |s.toks|) == k && IsContainer(s.toks[k])
    requires AreMembers(ms) && At(rd.js, s.pos, PrintMembers(ms)) && EndsAt(rd.js, s.pos + |PrintMembers(ms)|)
    requires |s.toks| + |MemberTokens(ms, s.pos)| <= rd.cap
    ensures var t := AfterMember(s, ms, k);
            rd.f(s) == rd.f(t) && WellFormed(t) && LastOpen(t.toks, |t.toks|) == k && IsContainer(t.toks[k]) &&
            At(rd.js, t.pos, PrintMembers(ms.rest)) && EndsAt(rd.js, t.pos + |PrintMembers(ms.rest)|) &&
            |t.toks| + |MemberTokens(ms.rest, t.pos)| <= rd.cap
    decreases ms.v, 4
  {
    MemberCommaText(rd.js, s, ms, k);
    assert AfterMember(s, ms, k).pos + |PrintMembers(ms.rest)| == s.pos + |PrintMembers(ms)|;
    RunMemberComma(rd, s, ms, k);
  }

  /** A member and the comma behind it. */
  lemma {:induction false} RunMemberComma(rd: Reader, s: State, ms: Members, k: nat)
    requires WellFormed(s) && ms.Member?
    requires s.sup == k && LastOpen(s.toks, |s.toks|) == k && IsContainer(s.toks[k])
    requires Blank(ms.pre) && IsString(ms.key) && Blank(ms.mid) && Blank(ms.pre2) && IsJson(ms.v) && Blank(ms.post)
    requires At(rd.js, s.pos, ms.pre + PrintString(ms.key) + ms.mid + ":" + ms.pre2 + Print(ms.v) + ms.post)
    requires var q := AfterMember(s, ms, k).pos - 1; !AtEnd(rd.js, q) && rd.js[q] == ','
    requires |AfterMember(s, ms, k).toks| <= rd.cap
    ensures var t := AfterMember(s, ms, k);
            rd.f(s) == rd.f(t) && LastOpen(t.toks, |t.toks|) == k && IsContainer(t.toks[k])
    decreases ms.v, 3
  {
    var t := AfterMember(s, ms, k);
    var q := ValueAt(s.pos, ms.pre, ms.key, ms.mid, ms.pre2);
    var tok := StringToken(ms.key, s.pos + |ms.pre|, 1);
    var sup := RunOneMember(rd, s, ms.pre, ms.key, ms.mid, ms.pre2, ms.v, ms.post, k);
    TokensClosed(ms.v, q);
    MemberThenComma(rd, s, t.pos - 1, k, sup, tok, Tokens(ms.v, q));
  }

  /** The comma behind a member with the tokens `tok` and `inner`. */
  lemma MemberThenComma(rd: Reader, s: State, q: nat, k: nat, sup: int,
                        tok: Token, inner: seq<Token>)
    requires k < |s.toks| && LastOpen(s.toks, |s.toks|) == k && IsContainer(s.toks[k])
    requires tok.kind == String && !IsOpen(tok) && AllClosed(inner) && !AtEnd(rd.js, q) && rd.js[q] == ','
    requires sup == k || sup == |s.toks|
    requires rd.f(s) == rd.f(State(q, BumpBy(s.toks, k, 1) + [tok] + inner, sup))
    ensures var toks := BumpBy(s.toks, k, 1) + ([tok] + inner);
            rd.f(s) == rd.f(State(q + 1, toks, k)) && LastOpen(toks, |toks|) == k && IsContainer(toks[k])
  {
    Associative(BumpBy(s.toks, k, 1), [tok], inner);
    CommaAfter(rd, s, q, k, sup, [tok] + inner);
  }

  lemma MemberCommaText(js: string, s: State, ms: Members, k: nat)
    requires k < |s.toks| && ms.Member? && At(js, s.pos, PrintMembers(ms))
    ensures var t := AfterMember(s, ms, k);
            At(js, s.pos, ms.pre + PrintString(ms.key) + ms.mid + ":" + ms.pre2 + Print(ms.v) + ms.post) &&
            t.pos <= |js| && js[t.pos - 1] == ',' && At(js, t.pos, PrintMembers(ms.rest)) &&
            s.pos + |PrintMembers(ms)| == t.pos + |PrintMembers(ms.rest)| &&
            |s.toks| + |MemberTokens(ms, s.pos)| == |t.toks| + |MemberTokens(ms.rest, t.pos)|
  {
    var first := ms.pre + PrintString(ms.key) + ms.mid + ":" + ms.pre2 + Print(ms.v) + ms.post;
    FirstMember(s, ms, k, first);
    ElemText(js, s.pos, first, PrintMembers(ms.rest));
  }

  /** How the text and the tokens of members begin. */
  lemma FirstMember(s: State, ms: Members, k: nat, first: string)
    requires k < |s.toks| && ms.Member?
    requires first == ms.pre + PrintString(ms.key) + ms.mid + ":" + ms.pre2 + Print(ms.v) + ms.post
    ensures PrintMembers(ms) == first + "," + PrintMembers(ms.rest)
    ensures var t := AfterMember(s, ms, k);
            t.pos == s.pos + |first| + 1 &&
            |s.toks| + |MemberTokens(ms, s.pos)| == |t.toks| + |MemberTokens(ms.rest, t.pos)|
  {
  }

  /** After a member's comma its object is superior again. */
  lemma RunComma(rd: Reader, t: State, k: nat)
    requires WellFormed(t) && !AtEnd(rd.js, t.pos) && rd.js[t.pos] == ','
    requires LastOpen(t.toks, |t.toks|) == k && IsContainer(t.toks[k])
    requires t.sup == k || (t.sup > k && t.toks[t.sup].kind == String)
    ensures rd.f(t) == rd.f(State(t.pos + 1, t.toks, k))
  {
    assert LastOpenContainer(t.toks, |t.toks|) == k;
    assert Step(rd.js, rd.cap, t) == Next(State(t.pos + 1, t.toks, k));
  }

  /** A JSON text: a value between white space. */
  function Text(pre: string, v: Value, post: string): string {
    pre + Print(v) + post
  }

  /** Tokenizing inverts printing. With room for the tokens of the value, a fresh
      parser reads the whole text and leaves exactly those tokens, in preorder;
      with less room it runs out of tokens. */
  lemma TokenizingInvertsPrinting(pre: string, v: Value, post: string, cap: nat)
    requires Blank(pre) && IsJson(v) && Blank(post)
    ensures var js, toks := Text(pre, v, post), Tokens(v, |pre|);
            if |toks| <= cap then Run(js, cap, Init) == (Count(|toks|), State(|js|, toks, -1))
            else Run(js, cap, Init).0 == Fail(NoMem)
  {
    var js, toks := Text(pre, v, post), Tokens(v, |pre|);
    if |toks| <= cap {
      RunText(pre, v, post, cap);
    } else {
      RunText(pre, v, post, |toks|);
      OutOfTokensIff(js, |toks|, Init);
      OutOfTokensIff(js, cap, Init);
      MoreRoom(js, |toks|, if |toks| <= |js| then |js| else |toks|, Init);
      RoomUsed(js, |toks|, Init);
    }
  }

  lemma RunText(pre: string, v: Value, post: string, cap: nat)
    requires Blank(pre) && IsJson(v) && Blank(post) && |Tokens(v, |pre|)| <= cap
    ensures Run(Text(pre, v, post), cap, Init) ==
            (Count(|Tokens(v, |pre|)|), State(|Text(pre, v, post)|, Tokens(v, |pre|), -1))
  {
    var js := Text(pre, v, post);
    TextParts(pre, v, post);
    ReadWhole(js, cap, pre, v, |pre| + |Print(v)|, Tokens(v, |pre|), post);
    AllRead(js, cap, Tokens(v, |pre|), v, |pre|);
  }

  /** A run over the text leads to where all is read. */
  lemma ReadWhole(js: string, cap: nat, pre: string, v: Value, q: nat, toks: seq<Token>, post: string)
    requires q == |pre| + |Print(v)| && toks == Tokens(v, |pre|)
    requires Blank(pre) && IsJson(v) && Blank(post) && |toks| <= cap
    requires At(js, 0, pre) && At(js, |pre|, Print(v)) && At(js, q, post) && EndsAt(js, q)
    ensures Run(js, cap, Init) == Run(js, cap, State(q + |post|, toks, -1))
  {
    ReadParts(RunReader(js, cap), pre, v, q, toks, post);
    SameRun(js, cap, Init, State(q + |post|, toks, -1));
  }

  lemma SameRun(js: string, cap: nat, a: State, b: State)
    requires WellFormed(a) && WellFormed(b) && RunReader(js, cap).f(a) == RunReader(js, cap).f(b)
    ensures Run(js, cap, a) == Run(js, cap, b)
  {
  }

  /** A run that starts at the end of the text. */
  lemma AllRead(js: string, cap: nat, toks: seq<Token>, v: Value, p: nat)
    requires toks == Tokens(v, p)
    ensures Run(js, cap, State(|js|, toks, -1)) == (Count(|toks|), State(|js|, toks, -1))
  {
    TokensClosed(v, p);
    assert LastOpen(toks, |toks|) == -1;
  }

  /** The outcome of runs is such a function. */
  ghost function RunReader(js: string, cap: nat): (rd: Reader)
    ensures rd.js == js && rd.cap == cap && forall s :: WellFormed(s) ==> rd.f(s) == Run(js, cap, s)
  {
    var f := s => if WellFormed(s) then Run(js, cap, s) else (Count(0), s);
    RunIsKept(js, cap, f);
    Reading(js, cap, f)
  }

  lemma RunIsKept(js: string, cap: nat, f: State -> (Outcome, State))
    requires forall s :: f(s) == if WellFormed(s) then Run(js, cap, s) else (Count(0), s)
    ensures KeptBySteps(js, cap, f)
  {
    forall s | WellFormed(s) && !AtEnd(js, s.pos) && Step(js, cap, s).Next?
      ensures f(s) == f(Step(js, cap, s).s)
    {
    }
  }

  lemma ReadParts(rd: Reader, pre: string, v: Value, q: nat, toks: seq<Token>, post: string)
    requires q == |pre| + |Print(v)| && toks == Tokens(v, |pre|)
    requires Blank(pre) && IsJson(v) && Blank(post) && |toks| <= rd.cap
    requires At(rd.js, 0, pre) && At(rd.js, |pre|, Print(v)) && At(rd.js, q, post) && EndsAt(rd.js, q)
    ensures rd.f(Init) == rd.f(State(q + |post|, toks, -1))
  {
    ReadValue(rd, |pre|, v);
    AroundValue(rd, pre, q, post, toks);
  }

  /** White space before and behind the text of a value. */
  lemma AroundValue(rd: Reader, pre: string, q: nat, post: string, toks: seq<Token>)
    requires Blank(pre) && Blank(post) && At(rd.js, 0, pre) && At(rd.js, q, post)
    requires rd.f(State(|pre|, [], -1)) == rd.f(State(q, toks, -1))
    ensures rd.f(Init) == rd.f(State(q + |post|, toks, -1))
  {
    RunBlank(rd, Init, pre);
    RunBlank(rd, State(q, toks, -1), post);
  }

  /** A value with no container around it. */
  lemma ReadValue(rd: Reader, p: nat, v: Value)
    requires IsJson(v) && |Tokens(v, p)| <= rd.cap && At(rd.js, p, Print(v)) && EndsAt(rd.js, p + |Print(v)|)
    ensures rd.f(State(p, [], -1)) == rd.f(State(p + |Print(v)|, Tokens(v, p), -1))
  {
    var t := State(p, [], -1);
    RunValue(rd, t, v);
    assert [] + Tokens(v, p) == Tokens(v, p);
  }

  lemma TextParts(pre: string, v: Value, post: string)
    requires Blank(post)
    ensures var js := Text(pre, v, post);
            At(js, 0, pre) && At(js, |pre|, Print(v)) && At(js, |pre| + |Print(v)|, post) &&
            EndsAt(js, |pre| + |Print(v)|)
  {
    var js := Text(pre, v, post);
    AtConcat(js, 0, pre + Print(v), post);
    AtConcat(js, 0, pre, Print(v));
    BlankEnds(js, |pre| + |Print(v)|, post);
  }
}
