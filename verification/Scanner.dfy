/** The separator scanner `FindNextRelevant` of JSONWorker.cpp, which skips a
    bracketed region by counting only the brackets of its own kind. */
module Scanner {
  import opened Text

  function Shift(k: nat, r: Option<nat>): Option<nat> {
    if r.Some? then Some(k + r.value) else None
  }

  /** Characters up to and including the quote that ends a string, `s` starting
      inside the string; `None` if the text ends first. */
  function SkipQuote(s: string): (r: Option<nat>)
    ensures r.Some? ==> 1 <= r.value <= |s|
  {
    if AtEnd(s) then None
    else if s[0] == '\"' then Some(1)
    else Shift(1, SkipQuote(s[1..]))
  }

  /** Characters up to and including the bracket that brings `depth` to zero. */
  function SkipBracket(left: char, right: char, s: string, depth: nat): (r: Option<nat>)
    ensures r.Some? && depth > 0 ==> 1 <= r.value
    ensures r.Some? ==> r.value <= |s|
    decreases |s|
  {
    if depth == 0 then Some(0)
    else if AtEnd(s) then None
    else if s[0] == right then Shift(1, SkipBracket(left, right, s[1..], depth - 1))
    else if s[0] == left then Shift(1, SkipBracket(left, right, s[1..], depth + 1))
    else if s[0] == '\"' then
      match SkipQuote(s[1..])
      case None => None
      case Some(k) => Shift(1 + k, SkipBracket(left, right, s[1 + k..], depth))
    else Shift(1, SkipBracket(left, right, s[1..], depth))
  }

  /** What lies behind an opening bracket or quote `s[0]`, or one character. */
  function SkipOne(s: string): (r: Option<nat>)
    requires !AtEnd(s)
    ensures r.Some? ==> 1 <= r.value <= |s|
  {
    if s[0] == '[' then Shift(1, SkipBracket('[', ']', s[1..], 1))
    else if s[0] == '{' then Shift(1, SkipBracket('{', '}', s[1..], 1))
    else if s[0] == '\"' then Shift(1, SkipQuote(s[1..]))
    else Some(1)
  }

  function Find(ch: char, s: string): (r: Option<nat>)
    ensures r.Some? ==> r.value < |s| && s[r.value] == ch
    decreases |s|
  {
    if AtEnd(s) then None
    else if s[0] == ch then Some(0)
    else if s[0] == ']' || s[0] == '}' then None
    else
      match SkipOne(s)
      case None => None
      case Some(k) => Shift(k, Find(ch, s[k..]))
  }

  // ---------- the loops of the source ----------

  method QuoteLoop(value: string, start: nat) returns (p: nat, ok: bool)
    requires start < |value|
    ensures ok <==> SkipQuote(value[start + 1..]).Some?
    ensures ok ==> p < |value| && p == start + SkipQuote(value[start + 1..]).value
  {
    p := start + 1;
    while p < |value| && value[p] != '\"'
      invariant start < p <= |value|
      invariant SkipQuote(value[start + 1..]) == Shift(p - start - 1, SkipQuote(value[p..]))
    {
      if value[p] == NUL {
        return p, false;
      }
      assert value[p..][1..] == value[p + 1..];
      p := p + 1;
    }
    ok := p < |value|;
  }

  /** One turn of the bracket loop, reading `value[p]`. */
  lemma BracketTurn(left: char, right: char, value: string, p: nat, depth: nat, used: nat, depth': nat)
    requires depth > 0 && p < |value| && value[p] != NUL
    requires p + used <= |value|
    requires if value[p] == right then used == 1 && depth' == depth - 1
             else if value[p] == left then used == 1 && depth' == depth + 1
             else if value[p] == '\"' then Shift(1, SkipQuote(value[p + 1..])) == Some(used) && depth' == depth
             else used == 1 && depth' == depth
    ensures SkipBracket(left, right, value[p..], depth)
         == Shift(used, SkipBracket(left, right, value[p + used..], depth'))
  {
    assert value[p..][1..] == value[p + 1..];
    assert value[p..][used..] == value[p + used..];
  }

  /** The bracket loop gives up at the terminator or inside an unclosed string. */
  lemma BracketStops(left: char, right: char, value: string, p: nat, depth: nat)
    requires depth > 0 && p <= |value|
    requires AtEnd(value[p..]) ||
             (value[p] == '\"' && left != '\"' && right != '\"' && SkipQuote(value[p + 1..]).None?)
    ensures SkipBracket(left, right, value[p..], depth) == None
  {
    if !AtEnd(value[p..]) {
      assert value[p..][1..] == value[p + 1..];
    }
  }

  method BracketLoop(left: char, right: char, value: string, start: nat) returns (p: nat, ok: bool)
    requires start < |value| && left != '\"' && right != '\"'
    ensures ok <==> SkipBracket(left, right, value[start + 1..], 1).Some?
    ensures ok ==> p < |value| && p == start + SkipBracket(left, right, value[start + 1..], 1).value
  {
    hide SkipBracket, SkipQuote;
    var brac := 1;
    p := start;
    ghost var whole := SkipBracket(left, right, value[start + 1..], 1);
    while brac > 0
      invariant start <= p < |value| && brac >= 0
      invariant whole == Shift(p - start, SkipBracket(left, right, value[p + 1..], brac))
      decreases |value| - p
    {
      p := p + 1;
      if p == |value| || value[p] == NUL {
        BracketStops(left, right, value, p, brac);
        return p, false;
      }
      ghost var at, depth := p, brac;
      if value[p] == right {
        brac := brac - 1;
      } else if value[p] == left {
        brac := brac + 1;
      } else if value[p] == '\"' {
        var q, closed := QuoteLoop(value, p);
        if !closed {
          BracketStops(left, right, value, p, brac);
          return p, false;
        }
        p := q;
      }
      BracketTurn(left, right, value, at, depth, 1 + p - at, brac);
    }
    BracketDone(left, right, value[p + 1..]);
    ok := true;
  }

  lemma BracketDone(left: char, right: char, s: string)
    ensures SkipBracket(left, right, s, 0) == Some(0)
  {
  }

  /** One turn of the scan, skipping `used` characters from `value[p]`. */
  lemma FindTurn(ch: char, value: string, p: nat, skipped: Option<nat>)
    requires p < |value| && value[p] !in {NUL, ch, ']', '}'}
    requires SkipOne(value[p..]) == skipped
    ensures Shift(p, Find(ch, value[p..]))
         == if skipped.None? then None else Shift(p + skipped.value, Find(ch, value[p + skipped.value..]))
  {
    if skipped.Some? {
      assert value[p..][skipped.value..] == value[p + skipped.value..];
    }
  }

  lemma FindHere(ch: char, s: string)
    ensures AtEnd(s) ==> Find(ch, s) == None
    ensures !AtEnd(s) && s[0] == ch ==> Find(ch, s) == Some(0)
    ensures !AtEnd(s) && s[0] != ch && (s[0] == ']' || s[0] == '}') ==> Find(ch, s) == None
  {
  }

  method SkipLoop(value: string, p: nat) returns (q: nat, ok: bool)
    requires p < |value| && value[p] != NUL
    ensures ok <==> SkipOne(value[p..]).Some?
    ensures ok ==> p <= q < |value| && SkipOne(value[p..]) == Some(1 + q - p)
  {
    hide SkipBracket, SkipQuote;
    assert value[p..][1..] == value[p + 1..];
    q, ok := p, true;
    match value[p] {
      case '[' => q, ok := BracketLoop('[', ']', value, p);
      case '{' => q, ok := BracketLoop('{', '}', value, p);
      case '\"' => q, ok := QuoteLoop(value, p);
      case _ =>
    }
  }

  method FindNextRelevant(ch: char, value: string, pos: nat) returns (r: Option<nat>)
    requires pos <= |value|
    ensures r == Shift(pos, Find(ch, value[pos..]))
  {
    hide Find, SkipOne;
    var p := pos;
    ghost var answer := Shift(pos, Find(ch, value[pos..]));
    while p < |value| && value[p] != NUL
      invariant pos <= p <= |value|
      invariant answer == Shift(p, Find(ch, value[p..]))
    {
      FindHere(ch, value[p..]);
      if value[p] == ch {
        return Some(p);
      }
      if value[p] == ']' || value[p] == '}' {
        return None;
      }
      FindTurn(ch, value, p, SkipOne(value[p..]));
      var q, ok := SkipLoop(value, p);
      if !ok {
        return None;
      }
      p := q + 1;
    }
    FindHere(ch, value[p..]);
    r := None;
  }

  // ---------- the reference: a lexer with a full stack of brackets ----------

  /** Where a character stands: below `stack` open brackets (their closers, the
      innermost last), possibly inside a string; behind the bracket or NUL that
      closes the region; or behind a bracket that closes the wrong kind. */
  datatype Place = In(stack: string, quoted: bool) | Closed | Broken

  const Outside := In("", false)

  function Step(m: Place, c: char): Place {
    if !m.In? then m
    else if c == NUL then Closed
    else if m.quoted then (if c == '\"' then In(m.stack, false) else m)
    else if c == '\"' then In(m.stack, true)
    else if c == '[' then In(m.stack + "]", false)
    else if c == '{' then In(m.stack + "}", false)
    else if c == ']' || c == '}' then
      if m.stack == "" then Closed
      else if m.stack[|m.stack| - 1] == c then In(m.stack[..|m.stack| - 1], false)
      else Broken
    else m
  }

  function Lex(m: Place, s: string): Place
    decreases |s|
  {
    if s == "" then m else Lex(Step(m, s[0]), s[1..])
  }

  lemma {:induction false} LexPrefix(m: Place, s: string, j: nat)
    requires 0 < j <= |s|
    ensures Lex(m, s[..j]) == Lex(Step(m, s[0]), s[1..][..j - 1])
  {
    assert s[..j][1..] == s[1..][..j - 1];
  }

  lemma {:induction false} LexSplit(m: Place, s: string, k: nat)
    requires k <= |s|
    ensures Lex(m, s) == Lex(Lex(m, s[..k]), s[k..])
    decreases k
  {
    if k == 0 {
      assert s[0..] == s;
    } else {
      LexPrefix(m, s, k);
      LexSplit(Step(m, s[0]), s[1..], k - 1);
      assert s[1..][k - 1..] == s[k..];
    }
  }

  lemma {:induction false} StuckLex(m: Place, s: string)
    requires !m.In?
    ensures Lex(m, s) == m
  {
    if s != "" { StuckLex(m, s[1..]); }
  }

  ghost predicate NeverOutside(m: Place, s: string, k: nat)
    requires k <= |s|
  {
    forall j | 0 <= j < k :: Lex(m, s[..j]) != Outside
  }

  /** `k` characters lead from `m` to `goal` and no earlier prefix is outside. */
  ghost predicate Leads(m: Place, s: string, k: nat, goal: Place) {
    k <= |s| && Lex(m, s[..k]) == goal && NeverOutside(m, s, k)
  }

  lemma {:induction false} LeadsFirst(m: Place, s: string, k: nat, goal: Place)
    requires s != "" && m != Outside && Leads(Step(m, s[0]), s[1..], k, goal)
    ensures Leads(m, s, 1 + k, goal)
  {
    LexPrefix(m, s, 1 + k);
    forall j | 0 <= j < 1 + k
      ensures Lex(m, s[..j]) != Outside
    {
      if j > 0 { LexPrefix(m, s, j); }
    }
  }

  lemma {:induction false} LeadsOn(m: Place, s: string, a: nat, mid: Place, b: nat, goal: Place)
    requires Leads(m, s, a, mid) && Leads(mid, s[a..], b, goal)
    ensures Leads(m, s, a + b, goal)
  {
    hide Lex;
    forall j | a <= j <= a + b
      ensures Lex(m, s[..j]) == Lex(mid, s[a..][..j - a])
    {
      LexSplit(m, s[..j], a);
      Slices(s, a, j);
    }
  }

  lemma Slices(s: string, a: nat, j: nat)
    requires a <= j <= |s|
    ensures s[..j][..a] == s[..a] && s[..j][a..] == s[a..][..j - a]
  {
  }

  lemma {:induction false} StuckLeads(m: Place, s: string)
    requires !m.In?
    ensures Leads(m, s, |s|, m)
  {
    forall j | 0 <= j <= |s| ensures Lex(m, s[..j]) == m {
      StuckLex(m, s[..j]);
    }
    assert s[..|s|] == s;
  }

  /** A quoted stretch stays inside the string and leaves it at its quote; if the
      text ends first it never gets out. */
  lemma {:induction false} QuoteLex(s: string, stack: string)
    ensures var r, m := SkipQuote(s), In(stack, true);
            if r.Some? then Leads(m, s, r.value, In(stack, false)) else NeverOutside(m, s, |s|) && Lex(m, s) != Outside
  {
    var m := In(stack, true);
    if s == "" {
    } else if s[0] == NUL {
      StuckLeads(Closed, s[1..]);
      LeadsFirst(m, s, |s| - 1, Closed);
      assert s[..|s|] == s;
    } else if s[0] == '\"' {
      assert Leads(In(stack, false), s[1..], 0, In(stack, false));
      LeadsFirst(m, s, 0, In(stack, false));
    } else {
      QuoteLex(s[1..], stack);
      var r := SkipQuote(s[1..]);
      if r.Some? {
        LeadsFirst(m, s, r.value, In(stack, false));
      } else {
        var end := Lex(m, s[1..]);
        assert s[1..][..|s| - 1] == s[1..];
        assert Leads(m, s[1..], |s| - 1, end);
        LeadsFirst(m, s, |s| - 1, end);
        assert s[..|s|] == s;
      }
    }
  }

  function Count(c: char, stack: string): nat {
    if stack == "" then 0
    else Count(c, stack[..|stack| - 1]) + (if stack[|stack| - 1] == c then 1 else 0)
  }

  lemma {:induction false} CountBottom(c: char, stack: string)
    requires stack != "" && stack[0] == c
    ensures Count(c, stack) >= 1
    ensures |stack| > 1 ==> Count(c, stack[..|stack| - 1]) >= 1
  {
    if |stack| > 1 { CountBottom(c, stack[..|stack| - 1]); }
  }

  predicate Kind(left: char, right: char) {
    (left == '[' && right == ']') || (left == '{' && right == '}')
  }

  predicate Closers(stack: string) {
    forall i | 0 <= i < |stack| :: stack[i] == ']' || stack[i] == '}'
  }

  /** From `m`, the lexer first gets outside after `r` characters of `s`, or never. */
  ghost predicate Escapes(m: Place, s: string, r: Option<nat>) {
    if r.Some? then Leads(m, s, r.value, Outside)
    else NeverOutside(m, s, |s|) && Lex(m, s) != Outside
  }

  /** Glue: `a` characters lead from `m` to `mid`, where the claim already holds. */
  lemma {:induction false} EscapesLater(m: Place, s: string, a: nat, mid: Place, r: Option<nat>)
    requires m != Outside && 0 < a <= |s| && Leads(m, s, a, mid) && Escapes(mid, s[a..], r)
    ensures Escapes(m, s, Shift(a, r))
  {
    if r.Some? {
      LeadsOn(m, s, a, mid, r.value, Outside);
    } else {
      assert s[a..][..|s| - a] == s[a..];
      LeadsOn(m, s, a, mid, |s| - a, Lex(mid, s[a..]));
      assert s[..|s|] == s;
    }
  }

  lemma {:induction false} StepLeads(m: Place, s: string)
    requires s != "" && m != Outside
    ensures Leads(m, s, 1, Step(m, s[0]))
  {
    assert s[1..][..0] == "";
    LeadsFirst(m, s, 0, Step(m, s[0]));
  }

  lemma {:induction false} StuckNeverEscapes(m: Place, s: string)
    requires !m.In?
    ensures Escapes(m, s, None)
  {
    StuckLeads(m, s);
    assert s[..|s|] == s;
    forall j | 0 <= j <= |s| ensures Lex(m, s[..j]) == m {
      StuckLex(m, s[..j]);
    }
  }

  lemma EscapedAlready(s: string)
    ensures Escapes(Outside, s, Some(0))
  {
  }

  lemma {:induction false} NoText(m: Place)
    requires m != Outside
    ensures Escapes(m, "", None)
  {
  }

  /** A quoted stretch leaves the string at its quote, or never. */
  lemma {:induction false} QuoteLeads(s: string, stack: string)
    requires s != "" && s[0] == '\"' && stack != ""
    ensures var r, m := SkipQuote(s[1..]), In(stack, false);
            if r.Some? then Leads(m, s, 1 + r.value, m) else Escapes(m, s, None)
  {
    var m := In(stack, false);
    QuoteLex(s[1..], stack);
    var r := SkipQuote(s[1..]);
    if r.Some? {
      LeadsFirst(m, s, r.value, m);
    } else {
      StepLeads(m, s);
      EscapesLater(m, s, 1, In(stack, true), None);
    }
  }

  /** Counting one bracket kind suffices: as long as no bracket closes the wrong
      kind, the count reaches zero exactly where the full stack gets empty. */
  lemma {:induction false} BracketLex(left: char, right: char, s: string, stack: string)
    requires Kind(left, right) && stack != "" && stack[0] == right && Closers(stack)
    requires Lex(In(stack, false), s) != Broken
    ensures Escapes(In(stack, false), s, SkipBracket(left, right, s, Count(right, stack)))
    decreases |s|
  {
    var m := In(stack, false);
    CountBottom(right, stack);
    if s == "" {
      NoText(m);
    } else if s[0] == NUL {
      StepLeads(m, s);
      StuckNeverEscapes(Closed, s[1..]);
      EscapesLater(m, s, 1, Closed, None);
    } else if s[0] == '\"' {
      QuoteLeads(s, stack);
      var q := SkipQuote(s[1..]);
      if q.Some? {
        LexSplit(m, s, 1 + q.value);
        BracketLex(left, right, s[1 + q.value..], stack);
        EscapesLater(m, s, 1 + q.value, m, SkipBracket(left, right, s[1 + q.value..], Count(right, stack)));
      }
    } else {
      BracketLexStep(left, right, s, stack);
      var next := Step(m, s[0]);
      StepLeads(m, s);
      if next.stack == "" {
        EscapedAlready(s[1..]);
      } else {
        BracketLex(left, right, s[1..], next.stack);
      }
      EscapesLater(m, s, 1, next, SkipBracket(left, right, s[1..], Count(right, next.stack)));
    }
  }

  /** One character outside strings: the count and the stack move together. */
  lemma {:induction false} BracketLexStep(left: char, right: char, s: string, stack: string)
    requires Kind(left, right) && stack != "" && stack[0] == right && Closers(stack)
    requires s != "" && s[0] != NUL && s[0] != '\"' && Lex(In(stack, false), s) != Broken
    ensures var next := Step(In(stack, false), s[0]);
            && next.In? && !next.quoted && Closers(next.stack)
            && (next.stack != "" ==> next.stack[0] == right)
            && SkipBracket(left, right, s, Count(right, stack))
               == Shift(1, SkipBracket(left, right, s[1..], Count(right, next.stack)))
  {
    var next := Step(In(stack, false), s[0]);
    if next == Broken {
      StuckLex(Broken, s[1..]);
    }
    CountBottom(right, stack);
    if s[0] == '[' || s[0] == '{' {
      assert next.stack[..|next.stack| - 1] == stack;
    }
  }

  /** An opening bracket or quote met outside is skipped to the next place that is
      outside again; without such a place there is nothing more to find. */
  lemma {:induction false} SkipOneLex(s: string)
    requires !AtEnd(s) && s[0] != ']' && s[0] != '}' && Lex(Outside, s) != Broken
    ensures var r := SkipOne(s);
            if r.Some? then Lex(Outside, s[..r.value]) == Outside &&
                            forall j | 0 < j < r.value :: Lex(Outside, s[..j]) != Outside
            else forall j | 0 < j <= |s| :: Lex(Outside, s[..j]) != Outside
  {
    if s[0] == '\"' {
      QuoteLex(s[1..], "");
      BehindFirst(s, In("", true), SkipQuote(s[1..]));
    } else if s[0] == '[' || s[0] == '{' {
      assert "" + "]" == "]" && "" + "}" == "}";
      var left, right := s[0], if s[0] == '[' then ']' else '}';
      assert Count(right, [right]) == 1 by {
        assert [right][..0] == "";
      }
      BracketLex(left, right, s[1..], [right]);
      BehindFirst(s, In([right], false), SkipBracket(left, right, s[1..], 1));
    } else {
      assert s[..1] == [s[0]];
    }
  }

  /** What is so for the text behind the first character. */
  lemma BehindFirst(s: string, next: Place, r: Option<nat>)
    requires s != "" && Step(Outside, s[0]) == next != Outside && Escapes(next, s[1..], r)
    ensures if r.Some? then
              r.value < |s| && Lex(Outside, s[..1 + r.value]) == Outside &&
              forall j | 0 < j <= r.value :: Lex(Outside, s[..j]) != Outside
            else forall j | 0 < j <= |s| :: Lex(Outside, s[..j]) != Outside
  {
    hide Lex;
    assert s[1..][..|s| - 1] == s[1..];
    forall j | 0 < j <= |s|
      ensures Lex(Outside, s[..j]) == Lex(next, s[1..][..j - 1])
    {
      LexPrefix(Outside, s, j);
    }
  }

  ghost predicate Wanted(ch: char, s: string, j: nat)
    requires j < |s|
  {
    s[j] == ch && Lex(Outside, s[..j]) == Outside
  }

  /** `FindNextRelevant` returns exactly the first occurrence of `ch` outside
      every bracket and string of the region, or nothing if there is none before
      the region is closed, on every text whose brackets close their own kind. */
  lemma {:induction false} FindIsFirstOutside(ch: char, s: string)
    requires ch !in {NUL, '\"', '[', '{'}
    requires Lex(Outside, s) != Broken
    ensures var r := Find(ch, s);
            if r.Some? then Wanted(ch, s, r.value) && forall j | 0 <= j < r.value :: !Wanted(ch, s, j)
            else forall j | 0 <= j < |s| :: !Wanted(ch, s, j)
    decreases |s|
  {
    if s == "" || s[0] == ch {
    } else if s[0] == NUL || s[0] == ']' || s[0] == '}' {
      forall j | 0 <= j < |s| ensures !Wanted(ch, s, j) {
        if j > 0 {
          LexPrefix(Outside, s, j);
          StuckLex(Closed, s[1..][..j - 1]);
        }
      }
    } else {
      SkipOneLex(s);
      var r := SkipOne(s);
      if r.Some? {
        var k := r.value;
        LexSplit(Outside, s, k);
        FindIsFirstOutside(ch, s[k..]);
        forall j | k <= j < |s| ensures Wanted(ch, s, j) == Wanted(ch, s[k..], j - k) {
          LexSplit(Outside, s[..j], k);
          assert s[..j][..k] == s[..k] && s[..j][k..] == s[k..][..j - k];
        }
        forall j | 0 <= j < k ensures !Wanted(ch, s, j) {
        }
      }
    }
  }

  /** The count of one kind is fooled when a bracket closes the wrong kind: on
      `[}],` the scanner reports the comma. */
  lemma WrongKindIsNotNoticed(s: string)
    requires s == "[}],"
    ensures Lex(Outside, s) == Broken && Find(',', s) == Some(3)
  {
    var t := s[1..];
    assert Step(Outside, '[') == In("]", false);
    assert Step(In("]", false), '}') == Broken;
    StuckLex(Broken, t[1..]);
    assert SkipBracket('[', ']', t, 1) == Some(2) by {
      var u := t[1..];
      assert SkipBracket('[', ']', u[1..], 0) == Some(0);
      assert u[0] == ']' && SkipBracket('[', ']', u, 1) == Some(1);
    }
    assert SkipOne(s) == Some(3);
    var rest := s[3..];
    assert rest[0] == ',' && Find(',', rest) == Some(0);
  }
}
