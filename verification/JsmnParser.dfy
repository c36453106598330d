/** The tokenizer of libjsmn/jsmn.h as the code runs: a parser object and a token
    array updated in place. Every call is proved equal to `Jsmn.Run`, or to
    `Jsmn.CountRun` when no token array is given. */
module JsmnParser {
  import opened Jsmn

  datatype Status = Ok | Err(err: Error)

  class Parser {
    var pos: nat
    var toknext: nat
    var toksuper: int

    /** What a caller owes: fields as `jsmn_init` or an earlier call left them, and
        no more tokens announced than the array holds. */
    ghost predicate Valid(tokens: array?<Token>, numTokens: nat)
      reads this
    {
      -1 <= toksuper &&
      (tokens != null ==> toksuper < toknext <= tokens.Length && numTokens <= tokens.Length)
    }

    ghost function View(tokens: array<Token>): (s: State)
      requires toknext <= tokens.Length
      reads this, tokens
    {
      State(pos, tokens[..toknext], toksuper)
    }

    constructor ()
      ensures pos == 0 && toknext == 0 && toksuper == -1
    {
      pos, toknext, toksuper := 0, 0, -1;
    }

    /** Takes the next unused token, or answers -1. Its kind is left as it was. */
    method AllocToken(tokens: array<Token>, numTokens: nat) returns (i: int)
      requires Valid(tokens, numTokens)
      modifies this`toknext, tokens
      ensures old(toknext) >= numTokens ==> i == -1 && toknext == old(toknext) && tokens[..] == old(tokens[..])
      ensures old(toknext) < numTokens ==>
                i == old(toknext) && toknext == i + 1 &&
                tokens[..] == old(tokens[..])[i := Token(old(tokens[i].kind), -1, -1, 0)]
    {
      if toknext >= numTokens {
        return -1;
      }
      i := toknext;
      toknext := toknext + 1;
      tokens[i] := tokens[i].(start := -1, end := -1);
      tokens[i] := tokens[i].(size := 0);
    }

    /** The common end of both scanners: allocates and fills a token. */
    method FillNext(tokens: array<Token>, numTokens: nat, kind: Kind, start: nat, end: nat) returns (ok: bool)
      requires Valid(tokens, numTokens)
      modifies this`toknext, tokens
      ensures ok == (old(toknext) < numTokens)
      ensures !ok ==> toknext == old(toknext) && tokens[..] == old(tokens[..])
      ensures ok ==> toknext == old(toknext) + 1 &&
                     tokens[..toknext] == old(tokens[..toknext]) + [Token(kind, start, end, 0)] &&
                     forall k :: toknext <= k < tokens.Length ==> tokens[k] == old(tokens[k])
    {
      var i := AllocToken(tokens, numTokens);
      if i == -1 {
        return false;
      }
      tokens[i] := Token(kind, start, end, 0);
      return true;
    }

    method ParsePrimitive(js: string, tokens: array?<Token>, numTokens: nat) returns (r: Status)
      requires Valid(tokens, numTokens)
      requires !AtEnd(js, pos) && !IsDelimiter(js[pos])
      modifies this`pos, this`toknext, tokens
      ensures var scan := ScanPrimitive(js, old(pos));
              r == (if !scan.Found? then Err(Inval)
                    else if tokens != null && old(toknext) >= numTokens then Err(NoMem) else Ok) &&
              pos == (if r.Ok? then scan.at - 1 else old(pos))
      ensures tokens == null || r.Err? ==> toknext == old(toknext)
      ensures tokens != null && r.Err? ==> tokens[..] == old(tokens[..])
      ensures tokens != null && r.Ok? ==>
                toknext == old(toknext) + 1 <= tokens.Length &&
                tokens[..toknext] == old(tokens[..toknext]) + [Token(Primitive, old(pos), pos + 1, 0)] &&
                forall k :: toknext <= k < tokens.Length ==> tokens[k] == old(tokens[k])
    {
      var start := pos;
      while pos < |js| && js[pos] != '\0' && !IsDelimiter(js[pos])
        invariant start <= pos <= |js|
        invariant toknext == old(toknext) && (tokens != null ==> tokens[..] == old(tokens[..]))
        invariant ScanPrimitive(js, pos) == ScanPrimitive(js, start)
      {
        if js[pos] < 32 as char || js[pos] >= 127 as char {
          pos := start;
          return Err(Inval);
        }
        pos := pos + 1;
      }
      if tokens == null {
        pos := pos - 1;
        return Ok;
      }
      var ok := FillNext(tokens, numTokens, Primitive, start, pos);
      if !ok {
        pos := start;
        return Err(NoMem);
      }
      pos := pos - 1;
      return Ok;
    }

    /** The four-digit loop of a \u escape. `ok` is false on a character that is not a hexadecimal digit. */
    method SkipHex(js: string) returns (ok: bool)
      requires pos <= |js|
      modifies this`pos
      ensures var scan := ScanHex(js, old(pos), 4);
              ok == scan.Found? && (ok ==> pos == scan.at)
    {
      var i := 0;
      while i < 4 && pos < |js| && js[pos] != '\0'
        invariant 0 <= i <= 4 && pos <= |js|
        invariant ScanHex(js, pos, 4 - i) == ScanHex(js, old(pos), 4)
      {
        if !IsHex(js[pos]) {
          return false;
        }
        pos := pos + 1;
        i := i + 1;
      }
      return true;
    }

    method ParseString(js: string, tokens: array?<Token>, numTokens: nat) returns (r: Status)
      requires Valid(tokens, numTokens)
      requires !AtEnd(js, pos) && js[pos] == '\"'
      modifies this`pos, this`toknext, tokens
      ensures var scan := ScanString(js, old(pos) + 1);
              r == (if scan.Bad? then Err(Inval) else if scan.Cut? then Err(Part)
                    else if tokens != null && old(toknext) >= numTokens then Err(NoMem) else Ok) &&
              pos == (if r.Ok? then scan.at else old(pos))
      ensures tokens == null || r.Err? ==> toknext == old(toknext)
      ensures tokens != null && r.Err? ==> tokens[..] == old(tokens[..])
      ensures tokens != null && r.Ok? ==>
                toknext == old(toknext) + 1 <= tokens.Length &&
                tokens[..toknext] == old(tokens[..toknext]) + [Token(String, old(pos) + 1, pos, 0)] &&
                forall k :: toknext <= k < tokens.Length ==> tokens[k] == old(tokens[k])
    {
      var start := pos;
      ghost var scan := ScanString(js, start + 1);
      pos := pos + 1;
      while pos < |js| && js[pos] != '\0'
        invariant start < pos <= |js|
        invariant toknext == old(toknext) && (tokens != null ==> tokens[..] == old(tokens[..]))
        invariant ScanString(js, pos) == scan
        decreases |js| - pos
      {
        var c := js[pos];
        if c == '\"' {
          if tokens == null {
            return Ok;
          }
          var ok := FillNext(tokens, numTokens, String, start + 1, pos);
          if !ok {
            pos := start;
            return Err(NoMem);
          }
          return Ok;
        }
        if c == '\\' && pos + 1 < |js| {
          pos := pos + 1;
          if IsSimpleEscape(js[pos]) {
          } else if js[pos] == 'u' {
            pos := pos + 1;
            var ok := SkipHex(js);
            if !ok {
              pos := start;
              return Err(Inval);
            }
            pos := pos - 1;
          } else {
            pos := start;
            return Err(Inval);
          }
        }
        pos := pos + 1;
      }
      pos := start;
      return Err(Part);
    }

    /** '{' and '[' with a token array. */
    method Open(js: string, tokens: array<Token>, numTokens: nat) returns (r: Status)
      requires Valid(tokens, numTokens) && pos < |js|
      modifies this`toknext, this`toksuper, tokens
      ensures Valid(tokens, numTokens) && forall k :: toknext <= k < tokens.Length ==> tokens[k] == old(tokens[k])
      ensures r.Err? ==> StepOpen(js, numTokens, old(View(tokens))) == Stop(r.err) && View(tokens) == old(View(tokens))
      ensures r.Ok? ==> StepOpen(js, numTokens, old(View(tokens))) == Next(View(tokens).(pos := pos + 1))
    {
      ghost var before := tokens[..];
      var i := AllocToken(tokens, numTokens);
      if i == -1 {
        return Err(NoMem);
      }
      if toksuper != -1 {
        tokens[toksuper] := tokens[toksuper].(size := tokens[toksuper].size + 1);
      }
      tokens[i] := tokens[i].(kind := if js[pos] == '{' then Object else Array);
      tokens[i] := tokens[i].(start := pos);
      assert tokens[..i] == Bump(before[..i], toksuper);
      toksuper := toknext - 1;
      return Ok;
    }

    /** The downward search for an open token from index `from`. */
    method FindOpen(tokens: array<Token>, from: int) returns (i: int)
      requires -1 <= from < toknext <= tokens.Length
      ensures i == LastOpen(tokens[..toknext], from + 1)
    {
      ghost var toks := tokens[..toknext];
      i := from;
      while i >= 0
        invariant -1 <= i <= from
        invariant LastOpen(toks, from + 1) == LastOpen(toks, i + 1)
      {
        if tokens[i].start != -1 && tokens[i].end == -1 {
          return;
        }
        i := i - 1;
      }
    }

    /** '}' and ']' with a token array. */
    method Close(js: string, tokens: array<Token>, ghost numTokens: nat) returns (r: Status)
      requires Valid(tokens, numTokens) && pos < |js|
      modifies this`toksuper, tokens
      ensures Valid(tokens, numTokens) && forall k :: toknext <= k < tokens.Length ==> tokens[k] == old(tokens[k])
      ensures r.Err? ==> StepClose(js, old(View(tokens))) == Stop(r.err) && View(tokens) == old(View(tokens))
      ensures r.Ok? ==> StepClose(js, old(View(tokens))) == Next(View(tokens).(pos := pos + 1))
    {
      ghost var before := tokens[..toknext];
      var kind := if js[pos] == '}' then Object else Array;
      var i := FindOpen(tokens, toknext - 1);
      if i == -1 {
        return Err(Inval);
      }
      if tokens[i].kind != kind {
        return Err(Inval);
      }
      toksuper := -1;
      tokens[i] := tokens[i].(end := pos + 1);
      ghost var after := before[i := before[i].(end := pos + 1)];
      assert tokens[..toknext] == after;
      var j := FindOpen(tokens, i);
      if j != -1 {
        toksuper := j;
      }
      return Ok;
    }

    /** ',' with a token array. */
    method Comma(tokens: array<Token>, ghost numTokens: nat)
      requires Valid(tokens, numTokens)
      modifies this`toksuper
      ensures Valid(tokens, numTokens)
      ensures StepComma(old(View(tokens))) == Next(View(tokens).(pos := pos + 1))
    {
      if toksuper != -1 && tokens[toksuper].kind != Array && tokens[toksuper].kind != Object {
        ghost var toks := tokens[..toknext];
        var i := toknext - 1;
        while i >= 0
          invariant -1 <= i < toknext
          invariant toksuper == old(toksuper)
          invariant LastOpenContainer(toks, toknext) == LastOpenContainer(toks, i + 1)
        {
          if tokens[i].kind == Array || tokens[i].kind == Object {
            if tokens[i].start != -1 && tokens[i].end == -1 {
              toksuper := i;
              break;
            }
          }
          i := i - 1;
        }
      }
    }

    /** Counts the new last token as a child of the superior one. */
    method CountChild(tokens: array<Token>)
      requires 0 < toknext <= tokens.Length && -1 <= toksuper < toknext - 1
      modifies tokens
      ensures tokens[..toknext] == Bump(old(tokens[..toknext - 1]), toksuper) + [old(tokens[toknext - 1])]
      ensures tokens[toknext..] == old(tokens[toknext..])
    {
      if toksuper != -1 {
        tokens[toksuper] := tokens[toksuper].(size := tokens[toksuper].size + 1);
      }
    }

    /** Scan a string or primitive. */
    method ScanLeaf(js: string, tokens: array?<Token>, numTokens: nat) returns (r: Status, ghost kind: Kind, ghost start: nat)
      requires Valid(tokens, numTokens)
      requires !AtEnd(js, pos) && (js[pos] == '\"' || !IsSpecial(js[pos]))
      modifies this`pos, this`toknext, tokens
      ensures LeafScanned(js, old(pos), tokens == null || old(toknext) < numTokens, r, kind, start, pos)
      ensures tokens == null || r.Err? ==> toknext == old(toknext)
      ensures tokens != null && r.Err? ==> tokens[..] == old(tokens[..])
      ensures tokens != null && r.Ok? ==>
                toknext == old(toknext) + 1 <= tokens.Length &&
                tokens[..toknext] == old(tokens[..toknext]) + [Token(kind, start, LeafEnd(kind, pos), 0)] &&
                forall k :: toknext <= k < tokens.Length ==> tokens[k] == old(tokens[k])
    {
      if js[pos] == '\"' {
        kind, start := String, pos + 1;
        r := ParseString(js, tokens, numTokens);
      } else {
        kind, start := Primitive, pos;
        r := ParsePrimitive(js, tokens, numTokens);
      }
    }

    /** A string or primitive met by the main loop: scan it, then count it. */
    method Leaf(js: string, tokens: array?<Token>, numTokens: nat, ghost count: nat) returns (r: Status)
      requires Valid(tokens, numTokens)
      requires !AtEnd(js, pos) && (js[pos] == '\"' || !IsSpecial(js[pos]))
      modifies this`pos, this`toknext, tokens
      ensures Valid(tokens, numTokens)
      ensures tokens == null ==>
                toknext == old(toknext) &&
                CountRun(js, old(pos), count) ==
                if r.Ok? then CountRun(js, pos + 1, count + 1) else (Fail(r.err), pos)
      ensures tokens != null ==> StepMatches(js, numTokens, old(View(tokens)), r, View(tokens))
      ensures tokens != null ==> toknext >= old(toknext) && forall k :: toknext <= k < tokens.Length ==> tokens[k] == old(tokens[k])
      ensures r.Ok? ==> old(pos) <= pos < |js|
    {
      ghost var kind, start;
      r, kind, start := ScanLeaf(js, tokens, numTokens);
      LeafCounts(js, old(pos), tokens == null || old(toknext) < numTokens, r, kind, start, pos, count);
      if tokens != null {
        LeafSteps(js, numTokens, old(View(tokens)), r, kind, start, pos);
      }
      if r.Ok? && tokens != null {
        assert tokens[..toknext - 1] == old(tokens[..toknext]);
        CountChild(tokens);
      } else if tokens != null {
        assert tokens[..toknext] == old(tokens[..toknext]);
      }
    }

    /** The body of the main loop. */
    method Dispatch(js: string, tokens: array?<Token>, numTokens: nat, count: nat) returns (r: Status, count': nat)
      requires Valid(tokens, numTokens) && !AtEnd(js, pos)
      modifies this, tokens
      ensures Valid(tokens, numTokens)
      ensures tokens == null ==>
                toknext == old(toknext) &&
                CountRun(js, old(pos), count) ==
                if r.Ok? then CountRun(js, pos + 1, count') else (Fail(r.err), pos)
      ensures tokens != null ==> StepMatches(js, numTokens, old(View(tokens)), r, View(tokens))
      ensures tokens != null ==> toknext >= old(toknext) && forall k :: toknext <= k < tokens.Length ==> tokens[k] == old(tokens[k])
      ensures tokens != null && r.Ok? ==> count' - count == toknext - old(toknext)
      ensures r.Ok? ==> old(pos) <= pos < |js|
    {
      r, count' := Ok, count;
      var c := js[pos];
      if c == '{' || c == '[' {
        count' := count + 1;
        if tokens != null {
          r := Open(js, tokens, numTokens);
        }
      } else if c == '}' || c == ']' {
        if tokens != null {
          r := Close(js, tokens, numTokens);
        }
      } else if c == ':' {
        toksuper := toknext - 1;
      } else if c == ',' {
        if tokens != null {
          Comma(tokens, numTokens);
        }
      } else if !IsBlank(c) {
        r := Leaf(js, tokens, numTokens, count);
        if r.Ok? {
          count' := count + 1;
        }
      }
    }

    /** A whole call. With a token array it returns and leaves what `Run` says, and
        tokens it did not allocate keep their contents; without one it counts. */
    method Parse(js: string, tokens: array?<Token>, numTokens: nat) returns (r: Outcome)
      requires Valid(tokens, numTokens)
      modifies this, tokens
      ensures Valid(tokens, numTokens)
      ensures tokens != null ==> (r, View(tokens)) == Run(js, numTokens, old(View(tokens)))
      ensures tokens != null ==> forall k :: toknext <= k < tokens.Length ==> tokens[k] == old(tokens[k])
      ensures tokens == null ==> (r, pos) == CountRun(js, old(pos), old(toknext)) && toknext == old(toknext)
    {
      var count := toknext;
      while pos < |js| && js[pos] != '\0'
        invariant Valid(tokens, numTokens)
        invariant tokens == null ==>
                    toknext == old(toknext) && CountRun(js, pos, count) == CountRun(js, old(pos), old(toknext))
        invariant tokens != null ==>
                    count == toknext && Run(js, numTokens, View(tokens)) == Run(js, numTokens, old(View(tokens)))
        invariant tokens != null ==> forall k :: toknext <= k < tokens.Length ==> tokens[k] == old(tokens[k])
        decreases |js| - pos
      {
        var st;
        st, count := Dispatch(js, tokens, numTokens, count);
        if st.Err? {
          return Fail(st.err);
        }
        pos := pos + 1;
      }
      if tokens != null {
        var i := FindOpen(tokens, toknext - 1);
        if i != -1 {
          return Fail(Part);
        }
      }
      return Count(count);
    }
  }

  /** `r` and `after` are what one round of the main loop leaves before `pos` moves on. */
  ghost predicate StepMatches(js: string, cap: nat, before: State, r: Status, after: State)
    requires WellFormed(before) && !AtEnd(js, before.pos)
  {
    Step(js, cap, before) == (if r.Ok? then Next(after.(pos := after.pos + 1)) else Stop(r.err)) &&
    (r.Err? ==> after == before)
  }

  /** Where a leaf ends, from where its scan stops. */
  function LeafEnd(kind: Kind, pos: nat): nat { if kind == String then pos else pos + 1 }

  /** What the scan of a string or primitive from `from` to `pos` returns. */
  ghost predicate LeafScanned(js: string, from: nat, room: bool, r: Status, kind: Kind, start: nat, pos: nat)
    requires !AtEnd(js, from)
  {
    var scan := if js[from] == '\"' then ScanString(js, from + 1) else ScanPrimitive(js, from);
    (kind, start) == (if js[from] == '\"' then (String, from + 1) else (Primitive, from)) &&
    r == (if scan.Found? then (if room then Ok else Err(NoMem))
          else Err(if kind == String && scan.Cut? then Part else Inval)) &&
    (r.Err? ==> pos == from) && (r.Ok? ==> from <= pos < |js| && LeafEnd(kind, pos) == scan.at)
  }

  lemma LeafCounts(js: string, from: nat, room: bool, r: Status, kind: Kind, start: nat, pos: nat, count: nat)
    requires !AtEnd(js, from) && (js[from] == '\"' || !IsSpecial(js[from]))
    requires LeafScanned(js, from, room, r, kind, start, pos)
    ensures room ==>
              CountRun(js, from, count) == if r.Ok? then CountRun(js, pos + 1, count + 1) else (Fail(r.err), pos)
  {
  }

  lemma LeafSteps(js: string, cap: nat, s: State, r: Status, kind: Kind, start: nat, pos: nat)
    requires WellFormed(s) && !AtEnd(js, s.pos) && (js[s.pos] == '\"' || !IsSpecial(js[s.pos]))
    requires LeafScanned(js, s.pos, |s.toks| < cap, r, kind, start, pos)
    ensures Step(js, cap, s) ==
            if r.Ok? then Next(State(pos + 1, Bump(s.toks, s.sup) + [Token(kind, start, LeafEnd(kind, pos), 0)], s.sup))
            else Stop(r.err)
  {
  }
}
